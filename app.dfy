/**
 * The `App` component's state and handlers (web/App.tsx): the shown path
 * (`url`), the map object held in `mapObj.current`, and the handlers that
 * change them. Each host call is replaced by the value it returns, passed
 * in as a parameter: the listing `get_entries` gives before the action
 * (`list`) and after the move to the trash (`newList`), whether
 * `move_to_trash` succeeded (`trashOk`), the dialog's answer and the mime
 * check's answer.
 */
module Viewer {
  import opened Wrappers
  import opened Navigation
  import opened Fit
  import Keys

  /** What `mapObj.current` holds once draw has run: the map built for one
      image, with the placement computed for it. */
  datatype Surface = Surface(source: Current, placement: Placement)

  class App {
    /** The shown path, or the empty sentinel (web/App.tsx:18). */
    var url: Current
    /** `mapObj.current` (web/App.tsx:21): no map until the first draw. */
    var surface: Option<Surface>

    constructor ()
      ensures url == Empty && surface == None
    {
      url := Empty;
      surface := None;
    }

    /** `setUrl`. */
    method SetUrl(p: string)
      modifies this`url
      ensures url == Path(p)
    {
      url := Path(p);
    }

    /** `window.location.reload()`: the page starts again with no image and no map. */
    method Reload()
      modifies this
      ensures url == Empty && surface == None
    {
      url := Empty;
      surface := None;
    }

    /** onOpen's handling of the dialog's answer (web/App.tsx:116-119). */
    method Open(pick: PickResult) returns (o: Outcome)
      modifies this`url
      ensures o == OpenTarget(pick)
      ensures url == After(old(url), o)
    {
      if pick.Cancelled? || (pick.Picked? && pick.path == "") || pick.PickedMany? {
        return NoChange;
      }
      SetUrl(pick.path);
      o := Set(pick.path);
    }

    /** The file-drop listener (web/App.tsx:216-221). With an empty payload
        the mime check is asked about an undefined path and fails, so the
        handler stops there. */
    method Drop(payload: seq<string>, mimeSafe: bool) returns (o: Outcome)
      modifies this`url
      ensures o == DropTarget(payload, mimeSafe)
      ensures url == After(old(url), o)
    {
      if |payload| == 0 || !mimeSafe {
        return NoChange;
      }
      SetUrl(payload[0]);
      o := Set(payload[0]);
    }

    /** onNext (web/App.tsx:122-138). */
    method Next(list: seq<string>) returns (o: Outcome)
      modifies this
      ensures o == NextTarget(old(url), list)
      ensures url == After(old(url), o)
      ensures surface == if o.Reset? then None else old(surface)
    {
      if url.Empty? {
        return NoChange;
      }
      if |list| == 0 {
        Reload();
        return Reset;
      }
      if |list| == 1 {
        return NoChange;
      }
      var index := IndexOf(list, url.p);
      if index == |list| - 1 || index == -1 {
        o := Set(list[0]);
      } else {
        o := Set(list[index + 1]);
      }
      SetUrl(o.p);
    }

    /** onPrev (web/App.tsx:140-158). */
    method Previous(list: seq<string>) returns (o: Outcome)
      modifies this
      ensures o == PrevTarget(old(url), list)
      ensures url == After(old(url), o)
      ensures surface == if o.Reset? then None else old(surface)
    {
      if url.Empty? {
        return NoChange;
      }
      if |list| == 0 {
        Reload();
        return Reset;
      }
      if |list| == 1 {
        return NoChange;
      }
      var index := IndexOf(list, url.p);
      if index == 0 {
        o := Set(list[|list| - 1]);
      } else if index == -1 {
        o := Set(list[0]);
      } else {
        o := Set(list[index - 1]);
      }
      SetUrl(o.p);
    }

    /** onRemove (web/App.tsx:160-187), with the out-of-range read for a
        path missing from the pre-delete listing corrected to the first
        entry (see RemoveIndex). */
    method Remove(list: seq<string>, trashOk: bool, newList: seq<string>) returns (o: Outcome)
      modifies this
      ensures o == RemoveTarget(old(url), list, trashOk, newList)
      ensures url == After(old(url), o)
      ensures surface == if o.Reset? then None else old(surface)
    {
      if url.Empty? {
        return NoChange;
      }
      if |list| == 0 {
        Reload();
        return Reset;
      }
      var index := IndexOf(list, url.p);
      if !trashOk {
        Reload();
        return Reset;
      }
      if |newList| == 0 {
        Reload();
        return Reset;
      }
      o := Set(newList[RemoveIndex(index, |newList|)]);
      SetUrl(o.p);
    }

    /** onKeyDown (web/App.tsx:189-210): the routed handler runs with the
        host's answers it would ask for. The `0` key's `setZoom(0)` acts on
        the map's zoom level only, which is not part of this model. */
    method KeyDown(key: string, metaKey: bool, list: seq<string>, trashOk: bool, newList: seq<string>)
      returns (o: Outcome)
      modifies this
      ensures o == match Keys.OnKeyDown(old(url), key, metaKey)
                   case GoNext => NextTarget(old(url), list)
                   case GoPrevious => PrevTarget(old(url), list)
                   case Remove => RemoveTarget(old(url), list, trashOk, newList)
                   case _ => NoChange
      ensures url == After(old(url), o)
      ensures surface == if o.Reset? then None else old(surface)
    {
      var action := Keys.OnKeyDown(url, key, metaKey);
      match action {
        case GoNext =>
          o := Next(list);
        case GoPrevious =>
          o := Previous(list);
        case Remove =>
          o := Remove(list, trashOk, newList);
        case _ =>
          o := NoChange;
      }
    }

    /** The image-load callback of draw (web/App.tsx:55-90) for an image of
        the given natural size in a viewport of the given size: the old map
        is discarded and replaced by one built from the placement. */
    method Draw(imageWidth: real, imageHeight: real, width: real, height: real)
      requires imageWidth > 0.0 && imageHeight > 0.0 && width >= 0.0 && height >= 0.0
      modifies this`surface
      ensures surface == Some(Surface(url, Place(imageWidth, width, imageHeight, height)))
    {
      var placement := Place(imageWidth, width, imageHeight, height);
      surface := Some(Surface(url, placement));
    }
  }

  /** The browsing scenarios of the viewer, driven through the handlers. */
  method Scenarios()
  {
    var app := new App();
    var o := app.Next(["a", "b", "c"]);
    assert o == NoChange;
    o := app.Open(Picked("b"));
    o := app.Next(["a", "b", "c"]);
    assert app.url == Path("c");
    o := app.Next(["a", "b", "c"]);
    assert app.url == Path("a");
    o := app.Previous(["a", "b", "c"]);
    assert app.url == Path("c");
    RemoveLastWrapsToFirst();
    o := app.Remove(["a", "b", "c"], true, ["a", "b"]);
    assert app.url == Path("a");
    o := app.Remove(["a", "b"], true, []);
    assert o == Reset && app.url == Empty;
  }
}
