/**
 * ConnectionWrapper: the xcffib-based wrapper that reads and publishes the
 * background record, creates screen-sized pixmaps and copies the root
 * window into them, with the retain-on-close directive issued up front.
 */
module SetWallpaper {
  import opened Wrappers
  import opened Bytes
  import opened XServer
  import opened Background

  /** The visuals of the screen's depths, depth by depth, each depth's visuals in order. */
  function AllVisuals(depths: seq<Depth>): (vs: seq<Visual>)
  {
    if depths == [] then [] else AllVisuals(depths[..|depths| - 1]) + depths[|depths| - 1].visuals
  }

  /** The first visual of `vs` whose id is `id`, or None when no visual has it. */
  function FirstWithId(vs: seq<Visual>, id: u32): (r: Option<Visual>)
    ensures r.Some? ==> r.value in vs && r.value.visualId == id
  {
    if vs == [] then None
    else if vs[0].visualId == id then Some(vs[0])
    else FirstWithId(vs[1..], id)
  }

  /** FirstWithId finds a visual exactly when one has the id, and then the earliest such. */
  lemma {:induction false} FirstWithIdCorrect(vs: seq<Visual>, id: u32)
    ensures FirstWithId(vs, id).None? <==> forall k | 0 <= k < |vs| :: vs[k].visualId != id
    ensures FirstWithId(vs, id).Some? ==> exists k | 0 <= k < |vs| ::
      vs[k] == FirstWithId(vs, id).value && vs[k].visualId == id && forall j | 0 <= j < k :: vs[j].visualId != id
  {
    if vs != [] && vs[0].visualId != id {
      var tail := vs[1..];
      FirstWithIdCorrect(tail, id);
      var r := FirstWithId(tail, id);
      if r.Some? {
        var k :| 0 <= k < |tail| && tail[k] == r.value && tail[k].visualId == id
                 && forall j | 0 <= j < k :: tail[j].visualId != id;
        assert vs[k + 1] == tail[k];
        forall j | 0 <= j < k + 1 ensures vs[j].visualId != id {
          if j > 0 { assert vs[j] == tail[j - 1]; }
        }
      } else {
        forall k | 0 <= k < |vs| ensures vs[k].visualId != id {
          if k > 0 { assert vs[k] == tail[k - 1]; }
        }
      }
    }
  }

  lemma {:induction false} FirstWithIdAppend(a: seq<Visual>, b: seq<Visual>, id: u32)
    ensures FirstWithId(a + b, id) == if FirstWithId(a, id).Some? then FirstWithId(a, id) else FirstWithId(b, id)
  {
    if a != [] {
      assert (a + b)[1..] == a[1..] + b;
      FirstWithIdAppend(a[1..], b, id);
    } else {
      assert a + b == b;
    }
  }

  lemma {:induction false} AllVisualsSplit(depths: seq<Depth>, i: nat)
    requires i <= |depths|
    ensures AllVisuals(depths) == AllVisuals(depths[..i]) + AllVisuals(depths[i..])
  {
    if i == |depths| {
      assert depths[..i] == depths;
      assert depths[i..] == [];
    } else {
      var n := |depths| - 1;
      var init := depths[..n];
      AllVisualsSplit(init, i);
      assert init[..i] == depths[..i];
      assert depths[i..][..|depths[i..]| - 1] == init[i..];
    }
  }

  /** The visuals of `depths` around the `j`-th visual of depth `i`. */
  lemma AllVisualsAround(depths: seq<Depth>, i: nat, j: nat)
    requires i < |depths| && j < |depths[i].visuals|
    ensures AllVisuals(depths) ==
      (AllVisuals(depths[..i]) + depths[i].visuals[..j] + [depths[i].visuals[j]])
      + (depths[i].visuals[j + 1..] + AllVisuals(depths[i + 1..]))
  {
    var vs := depths[i].visuals;
    AllVisualsSplit(depths, i + 1);
    AllVisualsSnoc(depths, i);
    Regroup(AllVisuals(depths[..i]), vs, j, AllVisuals(depths[i + 1..]));
  }

  /** Every visual of every depth is among the visuals searched. */
  lemma AllVisualsHas(depths: seq<Depth>, i: nat, j: nat)
    requires i < |depths| && j < |depths[i].visuals|
    ensures depths[i].visuals[j] in AllVisuals(depths)
  {
    AllVisualsAround(depths, i, j);
  }

  lemma AllVisualsSnoc(depths: seq<Depth>, i: nat)
    requires i < |depths|
    ensures AllVisuals(depths[..i + 1]) == AllVisuals(depths[..i]) + depths[i].visuals
  {
    assert depths[..i + 1][..i] == depths[..i];
  }

  lemma Regroup(before: seq<Visual>, vs: seq<Visual>, j: nat, rest: seq<Visual>)
    requires j < |vs|
    ensures (before + vs) + rest == (before + vs[..j] + [vs[j]]) + (vs[j + 1..] + rest)
  {
    assert vs == vs[..j] + [vs[j]] + vs[j + 1..];
  }

  lemma FirstHit(seen: seq<Visual>, x: Visual, after: seq<Visual>, id: u32)
    requires FirstWithId(seen, id) == None && x.visualId == id
    ensures FirstWithId(seen + [x] + after, id) == Some(x)
  {
    FirstWithIdAppend(seen, [x], id);
    FirstWithIdAppend(seen + [x], after, id);
  }

  lemma FoundAt(depths: seq<Depth>, i: nat, j: nat, id: u32)
    requires i < |depths| && j < |depths[i].visuals|
    requires FirstWithId(AllVisuals(depths[..i]) + depths[i].visuals[..j], id) == None
    requires depths[i].visuals[j].visualId == id
    ensures FirstWithId(AllVisuals(depths), id) == Some(depths[i].visuals[j])
  {
    AllVisualsAround(depths, i, j);
    FirstHit(AllVisuals(depths[..i]) + depths[i].visuals[..j], depths[i].visuals[j],
             depths[i].visuals[j + 1..] + AllVisuals(depths[i + 1..]), id);
  }

  lemma MissAt(seen: seq<Visual>, vs: seq<Visual>, j: nat, id: u32)
    requires j < |vs| && vs[j].visualId != id
    requires FirstWithId(seen + vs[..j], id) == None
    ensures FirstWithId(seen + vs[..j + 1], id) == None
  {
    FirstWithIdAppend(seen + vs[..j], [vs[j]], id);
    assert seen + vs[..j + 1] == seen + vs[..j] + [vs[j]];
  }

  lemma NextDepth(depths: seq<Depth>, i: nat, id: u32)
    requires i < |depths|
    requires FirstWithId(AllVisuals(depths[..i]) + depths[i].visuals[..|depths[i].visuals|], id) == None
    ensures FirstWithId(AllVisuals(depths[..i + 1]), id) == None
  {
    assert depths[..i + 1][..i] == depths[..i];
    assert depths[i].visuals[..|depths[i].visuals|] == depths[i].visuals;
  }

  /** The record of the retain directive: entry `at` of the log sets RetainPermanent. */
  ghost predicate RetainIssued(log: seq<Request>, at: nat)
  {
    at < |log| && log[at] == SetCloseDownMode(RetainPermanent)
  }

  /** The requests set_background sends for pixmap `p`. */
  function PublishRequests(root: u32, p: u32, width: nat, height: nat): seq<Request>
  {
    WriteRequests(root, XRootPmapId, p)
    + (WriteRequests(root, ESetRootPmapId, p) + AttributeRequests(root, p, width, height))
  }

  /** Sending set_background's requests publishes the pixmap. */
  lemma PublishRequestsPublish(s: Store, p: u32, width: nat, height: nat)
    ensures ApplyAll(s, PublishRequests(s.root, p, width, height)) == Published(s, p)
  {
    var root := s.root;
    var w1 := WriteRequests(root, XRootPmapId, p);
    var w2 := WriteRequests(root, ESetRootPmapId, p);
    var tail := AttributeRequests(root, p, width, height);
    var s2 := PropertyWritten(s, XRootPmapId, p);
    var s4 := PropertyWritten(s2, ESetRootPmapId, p);
    ApplyAllAppend(s, w1, w2 + tail);
    WriteRequestsEffect(s, XRootPmapId, p);
    ApplyAllAppend(s2, w2, tail);
    WriteRequestsEffect(s2, ESetRootPmapId, p);
    AttributeRequestsEffect(s4, p, width, height);
    assert ApplyAll(s, PublishRequests(root, p, width, height)) == ApplyAll(s4, tail);
    PublishedAfterWrites(s, p);
  }

  lemma PublishedAfterWrites(s: Store, p: u32)
    ensures var s4 := PropertyWritten(PropertyWritten(s, XRootPmapId, p), ESetRootPmapId, p);
      s4.(background := if FitsRoot(s4, p) then Some(p) else s4.background) == Published(s, p)
  {
  }

  /** The requests set_background sends after the two property writes. */
  function AttributeRequests(root: u32, p: u32, width: nat, height: nat): seq<Request>
  {
    [ChangeWindowAttributes(root, p), ClearArea(root, 0, 0, width, height), Flush]
  }

  lemma AttributeRequestsEffect(s: Store, p: u32, width: nat, height: nat)
    ensures ApplyAll(s, AttributeRequests(s.root, p, width, height))
         == s.(background := if FitsRoot(s, p) then Some(p) else s.background)
  {
    var s1 := Step(s, ChangeWindowAttributes(s.root, p));
    assert s1 == s.(background := if FitsRoot(s, p) then Some(p) else s.background);
    assert Step(s1, ClearArea(s.root, 0, 0, width, height)) == s1;
    ApplyAllThree(s, ChangeWindowAttributes(s.root, p), ClearArea(s.root, 0, 0, width, height), Flush);
  }

  /** The requests _set_proprety_to_pixmap sends. */
  function WriteRequests(root: u32, name: string, p: u32): seq<Request>
  {
    [InternAtom(name), ChangeProperty(root, Atom(name), PIXMAP, 32, [p])]
  }

  /** The store after _set_proprety_to_pixmap. */
  function PropertyWritten(s: Store, name: string, p: u32): Store
  {
    s.(atoms := s.atoms + {name}, props := s.props[Atom(name) := PixmapValue(p)])
  }

  lemma WriteRequestsEffect(s: Store, name: string, p: u32)
    ensures ApplyAll(s, WriteRequests(s.root, name, p)) == PropertyWritten(s, name, p)
  {
    ApplyAllTwo(s, InternAtom(name), ChangeProperty(s.root, Atom(name), PIXMAP, 32, [p]));
  }

  /** The requests get_current_background sends after reading `first` from _XROOTPMAP_ID. */
  function ReadRequests(root: u32, first: Result<Option<u32>>): seq<Request>
  {
    [InternAtom(XRootPmapId), GetProperty(root, Atom(XRootPmapId), PIXMAP, PropertyLongLength)]
    + if first == Ok(None) then
        [InternAtom(ESetRootPmapId), GetProperty(root, Atom(ESetRootPmapId), PIXMAP, PropertyLongLength)]
      else []
  }

  class ConnectionWrapper {
    const conn: Connection
    const screen: Screen
    const root: u32
    const width: nat
    const height: nat
    const depth: nat
    /** Whether the wrapper was built with persist=True. */
    ghost const persist: bool
    /** Where in the connection's log the retain directive stands, when persist is set. */
    ghost const retainAt: nat

    ghost predicate Valid()
      reads this, conn
    {
      && conn.Valid()
      && screen == conn.setup.roots[0]
      && root == screen.root
      && width == screen.widthInPixels
      && height == screen.heightInPixels
      && depth == screen.rootDepth
      && (persist ==> RetainIssued(conn.log, retainAt) && conn.store.retain)
    }

    /** Caches the first screen's geometry and, with persist, sets the RetainPermanent close-down mode. */
    constructor (conn: Connection, persist: bool)
      requires conn.Valid()
      modifies conn
      ensures Valid()
      ensures this.conn == conn && this.persist == persist
      ensures screen == conn.setup.roots[0]
      ensures persist ==> conn.log == old(conn.log) + [SetCloseDownMode(RetainPermanent)] && retainAt == |old(conn.log)|
      ensures !persist ==> conn.log == old(conn.log)
      ensures conn.store == if persist then old(conn.store).(retain := true) else old(conn.store)
      ensures conn.nextId == old(conn.nextId)
    {
      this.conn := conn;
      this.screen := conn.setup.roots[0];
      this.root := conn.setup.roots[0].root;
      this.width := conn.setup.roots[0].widthInPixels;
      this.height := conn.setup.roots[0].heightInPixels;
      this.depth := conn.setup.roots[0].rootDepth;
      this.persist := persist;
      this.retainAt := |conn.log|;
      new;
      if persist {
        conn.Send(SetCloseDownMode(RetainPermanent));
      }
    }

    method InternAtom(name: string) returns (a: Atom)
      requires Valid()
      modifies conn
      ensures Valid()
      ensures a == Atom(name)
      ensures conn.log == old(conn.log) + [Request.InternAtom(name)]
      ensures conn.store == old(conn.store).(atoms := old(conn.store).atoms + {name})
      ensures conn.nextId == old(conn.nextId)
    {
      conn.Send(Request.InternAtom(name));
      a := Atom(name);
    }

    /** _set_proprety_to_pixmap: the named root property now holds `pixmap` as one 32-bit PIXMAP item. */
    method SetPropertyToPixmap(name: string, pixmap: u32)
      requires Valid()
      modifies conn
      ensures Valid()
      ensures conn.log == old(conn.log) + WriteRequests(root, name, pixmap)
      ensures conn.store == PropertyWritten(old(conn.store), name, pixmap)
      ensures conn.nextId == old(conn.nextId)
    {
      var a := InternAtom(name);
      conn.Send(ChangeProperty(root, a, PIXMAP, 32, [pixmap]));
    }

    /** _get_pixmap_property: the named root property read as a pixmap. */
    method GetPixmapProperty(name: string) returns (r: Result<Option<u32>>)
      requires Valid()
      modifies conn
      ensures Valid()
      ensures r == ReadPixmapProperty(old(conn.store), name, conn.hostOrder)
      ensures conn.log == old(conn.log) + [Request.InternAtom(name), GetProperty(root, Atom(name), PIXMAP, PropertyLongLength)]
      ensures conn.store == old(conn.store).(atoms := old(conn.store).atoms + {name})
      ensures conn.nextId == old(conn.nextId)
    {
      var a := InternAtom(name);
      var reply := conn.GetPropertyOf(a, PIXMAP, PropertyLongLength);
      r := PixmapFromReply(reply, conn.hostOrder);
    }

    /** _find_root_visual: the first visual, in depth-then-visual order, whose id is the root visual. */
    method FindRootVisual() returns (v: Option<Visual>)
      ensures v == FirstWithId(AllVisuals(screen.allowedDepths), screen.rootVisual)
      ensures v.None? <==> forall k | 0 <= k < |AllVisuals(screen.allowedDepths)| ::
        AllVisuals(screen.allowedDepths)[k].visualId != screen.rootVisual
      ensures v.Some? ==> v.value.visualId == screen.rootVisual
    {
      var depths := screen.allowedDepths;
      var id := screen.rootVisual;
      FirstWithIdCorrect(AllVisuals(depths), id);
      var i := 0;
      while i < |depths|
        invariant 0 <= i <= |depths|
        invariant FirstWithId(AllVisuals(depths[..i]), id) == None
      {
        var vs := depths[i].visuals;
        var j := 0;
        assert AllVisuals(depths[..i]) + vs[..j] == AllVisuals(depths[..i]);
        while j < |vs|
          invariant 0 <= j <= |vs|
          invariant FirstWithId(AllVisuals(depths[..i]) + vs[..j], id) == None
        {
          if vs[j].visualId == id {
            FoundAt(depths, i, j, id);
            return Some(vs[j]);
          }
          MissAt(AllVisuals(depths[..i]), vs, j, id);
          j := j + 1;
        }
        NextDepth(depths, i, id);
        i := i + 1;
      }
      assert depths[..i] == depths;
      v := None;
    }

    /** create_pixmap: a fresh pixmap of the screen's width, height and root depth. */
    method CreatePixmap() returns (r: Result<u32>)
      requires Valid()
      modifies conn
      ensures Valid()
      ensures r.Err? ==> r.error == IdsExhausted && conn.store == old(conn.store) && conn.log == old(conn.log)
      ensures r.Ok? ==> FreshId(old(conn.store), r.value)
      ensures r.Ok? ==> conn.log == old(conn.log) + [Request.CreatePixmap(depth, r.value, root, width, height)]
      ensures r.Ok? ==> conn.store == old(conn.store).(pixmaps := old(conn.store).pixmaps[r.value := PixmapGeometry(width, height, depth)])
      ensures persist ==> conn.store.retain && retainAt < |old(conn.log)|
    {
      r := conn.GenerateId();
      if r.Ok? {
        conn.Send(Request.CreatePixmap(depth, r.value, root, width, height));
      }
    }

    /**
     * copy_pixmap: a graphics context with every value at its default (so
     * ClipByChildren), then a copy of the full screen area from `src` to
     * `dest`. The graphics context is never freed; its id is the result.
     */
    method CopyPixmap(src: u32, dest: u32) returns (r: Result<u32>)
      requires Valid()
      modifies conn
      ensures Valid()
      ensures r.Err? ==> r.error == IdsExhausted && conn.store == old(conn.store) && conn.log == old(conn.log)
      ensures r.Ok? ==> FreshId(old(conn.store), r.value)
      ensures r.Ok? ==> conn.store == old(conn.store).(gcs := old(conn.store).gcs + {r.value})
      ensures r.Ok? ==> conn.log == old(conn.log) + [CreateGC(r.value, root, DefaultGcValues), CopyArea(src, dest, r.value, 0, 0, 0, 0, width, height)]
    {
      r := conn.GenerateId();
      if r.Ok? {
        conn.Send(CreateGC(r.value, root, DefaultGcValues));
        conn.Send(CopyArea(src, dest, r.value, 0, 0, 0, 0, width, height));
      }
    }

    /** get_current_background: _XROOTPMAP_ID, falling back to ESETROOT_PMAP_ID. */
    method GetCurrentBackground() returns (r: Result<Option<u32>>)
      requires Valid()
      modifies conn
      ensures Valid()
      ensures r == CurrentBackground(old(conn.store), conn.hostOrder)
      ensures conn.log == old(conn.log) + ReadRequests(root, ReadPixmapProperty(old(conn.store), XRootPmapId, conn.hostOrder))
      ensures old(conn.store).atoms <= conn.store.atoms <= old(conn.store).atoms + {XRootPmapId, ESetRootPmapId}
      ensures conn.store == old(conn.store).(atoms := conn.store.atoms)
      ensures conn.nextId == old(conn.nextId)
    {
      ghost var s0 := conn.store;
      var pixmap := GetPixmapProperty(XRootPmapId);
      if pixmap != Ok(None) {
        return pixmap;
      }
      ghost var s1 := conn.store;
      ghost var log1 := conn.log;
      r := GetPixmapProperty(ESetRootPmapId);
      ReadSeesProps(s0, s1, ESetRootPmapId, conn.hostOrder);
      assert conn.log == log1 + ReadRequests(root, pixmap)[2..];
    }

    /** set_background: both properties, then the root's background attribute, a clear and a flush. */
    method SetBackground(pixmap: u32)
      requires Valid()
      modifies conn
      ensures Valid()
      ensures conn.store == Published(old(conn.store), pixmap)
      ensures conn.log == old(conn.log) + PublishRequests(root, pixmap, width, height)
      ensures conn.nextId == old(conn.nextId)
    {
      SetPropertyToPixmap(XRootPmapId, pixmap);
      SetPropertyToPixmap(ESetRootPmapId, pixmap);
      conn.Send(ChangeWindowAttributes(root, pixmap));
      conn.Send(ClearArea(root, 0, 0, width, height));
      conn.Send(Flush);
    }

    /**
     * set_background_to_root_window_contents: a fresh screen-sized pixmap,
     * the root window copied into it, and that pixmap published.
     */
    method SetBackgroundToRootWindowContents() returns (r: Result<u32>, gc: u32)
      requires Valid()
      modifies conn
      ensures Valid()
      ensures r.Err? ==> r.error == IdsExhausted
      ensures r.Ok? ==> FreshId(old(conn.store), r.value) && FreshId(old(conn.store), gc) && r.value != gc
      ensures r.Ok? ==> conn.store == Published(Copied(old(conn.store), r.value, gc, PixmapGeometry(width, height, depth)), r.value)
      ensures r.Ok? ==> conn.log == old(conn.log) + ContentsRequests(root, r.value, gc, width, height, depth)
      ensures persist ==> conn.store.retain && retainAt < |old(conn.log)|
    {
      gc := 0;
      ghost var log0 := conn.log;
      r := CreatePixmap();
      if r.Err? {
        return;
      }
      var pixmap := r.value;
      ghost var log1 := conn.log;
      var copied := CopyPixmap(root, pixmap);
      if copied.Err? {
        return Err(copied.error), gc;
      }
      gc := copied.value;
      ghost var log2 := conn.log;
      SetBackground(pixmap);
      LogSteps(log0, [Request.CreatePixmap(depth, pixmap, root, width, height)],
               [CreateGC(gc, root, DefaultGcValues), CopyArea(root, pixmap, gc, 0, 0, 0, 0, width, height)],
               PublishRequests(root, pixmap, width, height));
    }
  }

  /** The store after a fresh pixmap `p` of geometry `g` and a graphics context `gc` are created. */
  function Copied(s: Store, p: u32, gc: u32, g: PixmapGeometry): Store
  {
    s.(pixmaps := s.pixmaps[p := g], gcs := s.gcs + {gc})
  }

  /** The requests set_background_to_root_window_contents sends when both ids are granted. */
  function ContentsRequests(root: u32, p: u32, gc: u32, width: nat, height: nat, depth: nat): seq<Request>
  {
    [Request.CreatePixmap(depth, p, root, width, height),
     CreateGC(gc, root, DefaultGcValues), CopyArea(root, p, gc, 0, 0, 0, 0, width, height)]
    + PublishRequests(root, p, width, height)
  }

  lemma LogSteps(log: seq<Request>, a: seq<Request>, b: seq<Request>, c: seq<Request>)
    ensures log + a + b + c == log + (a + b + c)
  {
  }

  /** The requests create_pixmap and copy_pixmap send, from the store before them. */
  lemma CopyRequestsEffect(s: Store, p: u32, gc: u32, width: nat, height: nat, depth: nat)
    requires FreshId(s, p) && FreshId(s, gc) && p != gc && width > 0 && height > 0
    ensures ApplyAll(s, ContentsRequests(s.root, p, gc, width, height, depth)[..3])
         == Copied(s, p, gc, PixmapGeometry(width, height, depth))
  {
    var create := Request.CreatePixmap(depth, p, s.root, width, height);
    var newGc := CreateGC(gc, s.root, DefaultGcValues);
    var copy := CopyArea(s.root, p, gc, 0, 0, 0, 0, width, height);
    assert ContentsRequests(s.root, p, gc, width, height, depth)[..3] == [create, newGc, copy];
    ApplyAllThree(s, create, newGc, copy);
  }

  /**
   * After set_background_to_root_window_contents the new pixmap, made at the
   * root's depth, is the root's background and the current background read back from the
   * properties, and those requests create and publish it from any store.
   */
  lemma ContentsPublished(s: Store, p: u32, gc: u32, width: nat, height: nat, depth: nat, order: Order)
    requires FreshId(s, p) && FreshId(s, gc) && p != gc && width > 0 && height > 0 && depth == s.rootDepth
    ensures var t := Published(Copied(s, p, gc, PixmapGeometry(width, height, depth)), p);
      && t.background == Some(p)
      && CurrentBackground(t, order) == Ok(Some(p))
      && t.pixmaps == s.pixmaps[p := PixmapGeometry(width, height, depth)]
      && t.gcs == s.gcs + {gc}
      && ApplyAll(s, ContentsRequests(s.root, p, gc, width, height, depth)) == t
  {
    var c := Copied(s, p, gc, PixmapGeometry(width, height, depth));
    PublishedFrame(c, p);
    PublishedReadBack(c, p, order);
    var rs := ContentsRequests(s.root, p, gc, width, height, depth);
    assert rs == rs[..3] + PublishRequests(s.root, p, width, height);
    ApplyAllAppend(s, rs[..3], PublishRequests(s.root, p, width, height));
    CopyRequestsEffect(s, p, gc, width, height, depth);
    PublishRequestsPublish(c, p, width, height);
  }
}
