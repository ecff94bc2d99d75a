/**
 * Keyboard routing of the viewer (web/App.tsx:189-210, onKeyDown).
 *
 * The source writes two of its case labels as `e.metaKey && 'ArrowRight'`:
 * JavaScript evaluates such a label to the string when the modifier is held
 * and to `false` otherwise, and a `switch` compares labels with `===`, so a
 * `false` label can never equal a key name. The model evaluates the labels
 * the same way and proves that the outcome is the plain binding table.
 */
module Keys {
  import opened Navigation

  /** What a key press asks for. */
  datatype Action = Ignore | ResetZoom | GoNext | GoPrevious | Remove

  /** The JavaScript values a case label of this switch can evaluate to. */
  datatype JsValue = JsBool(b: bool) | JsString(s: string)

  /** JavaScript's `a && v` for a boolean `a`: `v` when `a` holds, else `a` itself. */
  function LogicalAnd(a: bool, v: JsValue): JsValue {
    if a then v else JsBool(a)
  }

  /** The consecutive case labels that fall through to one handler. */
  datatype Case = Case(labels: seq<JsValue>, action: Action)

  /** The cases of onKeyDown, in source order, for a given modifier state. */
  function KeyCases(metaKey: bool): (cs: seq<Case>)
    ensures |cs| == 4
    ensures JsString("ArrowRight") in cs[1].labels <==> metaKey
    ensures JsString("ArrowLeft") in cs[2].labels <==> metaKey
    ensures !metaKey ==> JsBool(false) in cs[1].labels && JsBool(false) in cs[2].labels
  {
    [ Case([JsString("0")], ResetZoom),
      Case([LogicalAnd(metaKey, JsString("ArrowRight")), JsString("j")], GoNext),
      Case([LogicalAnd(metaKey, JsString("ArrowLeft")), JsString("k")], GoPrevious),
      Case([JsString("Delete")], Remove) ]
  }

  /** A `switch` with a `default` that does nothing: the handler of the first
      case one of whose labels is strictly equal to the value. */
  function Switch(value: JsValue, cases: seq<Case>): (a: Action)
    ensures (forall i :: 0 <= i < |cases| ==> value !in cases[i].labels) ==> a == Ignore
    ensures forall i :: 0 <= i < |cases| && value in cases[i].labels
                        && (forall j :: 0 <= j < i ==> value !in cases[j].labels)
                        ==> a == cases[i].action
  {
    if |cases| == 0 then Ignore
    else if value in cases[0].labels then cases[0].action
    else
      var a := Switch(value, cases[1..]);
      assert forall i :: 1 <= i < |cases| ==> cases[1..][i - 1] == cases[i];
      a
  }

  /** onKeyDown: nothing happens while no image is shown; otherwise `0`
      resets the zoom, `j` or meta+ArrowRight goes to the next image, `k` or
      meta+ArrowLeft to the previous one, `Delete` removes the image, and
      every other key, the bare arrows included, is ignored. */
  function OnKeyDown(url: Current, key: string, metaKey: bool): (a: Action)
    ensures url.Empty? ==> a == Ignore
    ensures url.Path? ==> (a == ResetZoom <==> key == "0")
    ensures url.Path? ==> (a == GoNext <==> key == "j" || (metaKey && key == "ArrowRight"))
    ensures url.Path? ==> (a == GoPrevious <==> key == "k" || (metaKey && key == "ArrowLeft"))
    ensures url.Path? ==> (a == Remove <==> key == "Delete")
  {
    if url.Empty? then Ignore
    else
      var cases, value := KeyCases(metaKey), JsString(key);
      assert value in cases[0].labels <==> key == "0";
      assert value in cases[1].labels <==> key == "j" || (metaKey && key == "ArrowRight");
      assert value in cases[2].labels <==> key == "k" || (metaKey && key == "ArrowLeft");
      assert value in cases[3].labels <==> key == "Delete";
      Switch(value, cases)
  }
}
