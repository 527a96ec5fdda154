/**
 * The `image-input` component: a file picker that previews the chosen image
 * and reports it to its parent through `update:modelValue`.
 */
module ImageInputs {
  import opened Wrappers
  import opened JsStrings

  /**
   * What the browser hands `updateImage`: no file, a file whose read as a data
   * URL produced `dataUrl`, or a file whose read failed.
   */
  datatype Selection = NoFile | Loaded(dataUrl: JsString) | ReadFailed

  /** JavaScript truthiness of a string prop that may be `null`: only a non-empty string is truthy. */
  predicate Truthy(v: Option<JsString>) {
    v.Some? && v.value != []
  }

  /** `newValue || null`: what the watcher shows for an incoming model value. */
  function Shown(v: Option<JsString>): (p: Option<JsString>)
    ensures p.None? <==> !Truthy(v)
    ensures p.Some? ==> p == v
  {
    if Truthy(v) then v else None
  }

  /** Showing what is already shown changes nothing. */
  lemma ShownIdempotent(v: Option<JsString>)
    ensures Shown(Shown(v)) == Shown(v)
  {
  }

  class ImageInput {
    /** The image shown in the picker; `None` is `null`. */
    var preview: Option<JsString>
    /** The payloads of the `update:modelValue` events emitted so far, oldest first. */
    var emitted: seq<Option<JsString>>

    constructor ()
      ensures preview == Some([]) && emitted == []
    {
      preview := Some([]);
      emitted := [];
    }

    /** `updateImage`: the read of a chosen file is taken as finished when the call ends. */
    method UpdateImage(selection: Selection)
      modifies this
      ensures selection.NoFile? ==> preview == None && emitted == old(emitted) + [None]
      ensures selection.Loaded? ==>
        preview == Some(selection.dataUrl) && emitted == old(emitted) + [Some(selection.dataUrl)]
      ensures selection.ReadFailed? ==> preview == old(preview) && emitted == old(emitted)
    {
      match selection
      case NoFile =>
        preview := None;
        emitted := emitted + [None];
      case Loaded(result) =>
        preview := Some(result);
        emitted := emitted + [Some(result)];
      case ReadFailed =>
    }

    /** The `modelValue` watcher. */
    method ModelValueChanged(newValue: Option<JsString>)
      modifies this
      ensures preview == Shown(newValue)
      ensures Truthy(newValue) ==> preview == newValue
      ensures !Truthy(newValue) ==> preview == None
      ensures emitted == old(emitted)
    {
      preview := if Truthy(newValue) then newValue else None;
    }
  }

  /**
   * Through `v-model` the parent hands the emitted value straight back as the
   * new model value; a successful read of a non-empty data URL then keeps its
   * preview, and "no file" stays cleared. (Vue skips the watcher when the
   * value did not change; calling it then would change nothing either.)
   */
  method SelectThroughModel(input: ImageInput, selection: Selection)
    requires selection.Loaded? ==> selection.dataUrl != []
    modifies input
    ensures selection.NoFile? ==> input.preview == None
    ensures selection.Loaded? ==> input.preview == Some(selection.dataUrl)
    ensures selection.ReadFailed? ==> input.preview == old(input.preview)
  {
    var before := |input.emitted|;
    input.UpdateImage(selection);
    if |input.emitted| > before {
      input.ModelValueChanged(input.emitted[|input.emitted| - 1]);
    }
  }
}
