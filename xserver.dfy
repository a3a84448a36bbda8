/**
 * The X server as the program sees it: the connection setup, the requests the
 * program sends, and an abstract store of the server state those requests
 * change (root-window properties, the root's background attribute, allocated
 * pixmaps and graphics contexts, the client's close-down mode).
 * Pixel contents are not part of the store; the request log records every
 * drawing request with its arguments instead.
 */
module XServer {
  import opened Wrappers
  import opened Bytes

  /** An atom, identified by its name; the number the server assigns is not modelled. */
  datatype Atom = Atom(name: string)

  /** The predefined atom used as the type of pixmap-valued properties. */
  const PIXMAP: Atom := Atom("PIXMAP")

  /** Bits per property item. */
  type Format = f: nat | f == 8 || f == 16 || f == 32 witness 32

  /** A property value: its type, its format and its items. */
  datatype PropertyValue = PropertyValue(propType: Atom, format: Format, items: seq<u32>)

  datatype Visual = Visual(visualId: u32, visualClass: nat, redMask: u32, greenMask: u32, blueMask: u32)
  datatype Depth = Depth(depth: nat, visuals: seq<Visual>)
  datatype Screen = Screen(
    root: u32, widthInPixels: nat, heightInPixels: nat, rootDepth: nat,
    rootVisual: u32, allowedDepths: seq<Depth>)

  /** What the connection setup reply tells the client. */
  datatype Setup = Setup(roots: seq<Screen>, maxRequestLength: nat)

  datatype CloseDownMode = DestroyAll | RetainPermanent | RetainTemporary

  datatype GcFunction = GXcopy
  datatype FillStyle = FillSolid
  datatype SubwindowMode = ClipByChildren | IncludeInferiors

  /** The graphics-context values a CreateGC request sets; None leaves the server default. */
  datatype GcValues = GcValues(
    gcFunction: Option<GcFunction>, fillStyle: Option<FillStyle>,
    subwindowMode: Option<SubwindowMode>, foreground: Option<u32>)

  const DefaultGcValues: GcValues := GcValues(None, None, None, None)

  /**
   * The requests the program issues. ChangeProperty is always in Replace mode,
   * GetProperty never deletes and reads from offset 0, PutImage is always in
   * ZPixmap format and ClearArea never asks for exposures, so those arguments
   * are left out. Paint stands for the rendering requests cairo issues to
   * composite the source image onto a drawable at an opacity, and Flush marks
   * the point where buffered requests are sent.
   */
  datatype Request =
    | SetCloseDownMode(mode: CloseDownMode)
    | InternAtom(name: string)
    | ChangeProperty(window: u32, property: Atom, propType: Atom, format: Format, items: seq<u32>)
    | GetProperty(window: u32, property: Atom, propType: Atom, longLength: nat)
    | GetGeometry(drawable: u32)
    | CreatePixmap(depth: nat, pid: u32, drawable: u32, width: nat, height: nat)
    | CreateGC(cid: u32, drawable: u32, values: GcValues)
    | FreeGC(gc: u32)
    | CopyArea(src: u32, dst: u32, gc: u32, srcX: int, srcY: int, dstX: int, dstY: int, width: nat, height: nat)
    | FillRectangle(drawable: u32, gc: u32, x: int, y: int, width: nat, height: nat)
    | PutImage(drawable: u32, gc: u32, width: nat, height: nat, dstX: int, dstY: int,
               leftPad: nat, depth: nat, data: seq<byte>)
    | ChangeWindowAttributes(window: u32, backgroundPixmap: u32)
    | ClearArea(window: u32, x: int, y: int, width: nat, height: nat)
    | Paint(drawable: u32, alpha: real)
    | Flush

  datatype PixmapGeometry = PixmapGeometry(width: nat, height: nat, depth: nat)

  /** The server state the requests act on, for the first screen's root window. */
  datatype Store = Store(
    root: u32,
    rootDepth: nat,                        // the depth of the root window
    atoms: set<string>,                    // interned atom names
    props: map<Atom, PropertyValue>,       // properties of the root window
    background: Option<u32>,               // the root's background-pixmap attribute
    pixmaps: map<u32, PixmapGeometry>,     // live pixmaps, from every client
    gcs: set<u32>,                         // live graphics contexts
    retain: bool)                          // this client's close-down mode is RetainPermanent

  /** An id no resource uses: not the root window, a live pixmap or a live graphics context. */
  predicate FreshId(s: Store, id: u32)
  {
    id != s.root && id !in s.pixmaps && id !in s.gcs
  }

  /** A drawable a new graphics context can be created on: the root or a live pixmap. */
  predicate IsDrawable(s: Store, d: u32)
  {
    d == s.root || d in s.pixmaps
  }

  /** A pixmap the root can take as its background: live, and of the root's depth. */
  predicate FitsRoot(s: Store, p: u32)
  {
    p in s.pixmaps && s.pixmaps[p].depth == s.rootDepth
  }

  /**
   * The effect of one request on the store. A request the server would
   * answer with an error (an unknown window or atom, an id in use, a zero
   * size, a missing drawable, a background pixmap that is missing or of
   * another depth than the root) leaves the store as it was.
   */
  function Step(s: Store, r: Request): (t: Store)
    ensures t.root == s.root && t.rootDepth == s.rootDepth
    ensures s.atoms <= t.atoms
    ensures t.props != s.props ==> r.ChangeProperty?
    // the background only ever becomes a live pixmap of the root's depth
    ensures t.background != s.background ==> r.ChangeWindowAttributes? && t.background == Some(r.backgroundPixmap)
                                              && FitsRoot(s, r.backgroundPixmap)
  {
    match r
    case SetCloseDownMode(mode) => s.(retain := mode == RetainPermanent)
    case InternAtom(name) => s.(atoms := s.atoms + {name})
    case ChangeProperty(w, a, ty, f, items) =>
      if w == s.root && a.name in s.atoms then s.(props := s.props[a := PropertyValue(ty, f, items)]) else s
    case CreatePixmap(d, pid, _, w, h) =>
      if FreshId(s, pid) && w > 0 && h > 0 then s.(pixmaps := s.pixmaps[pid := PixmapGeometry(w, h, d)]) else s
    case CreateGC(cid, d, _) => if FreshId(s, cid) && IsDrawable(s, d) then s.(gcs := s.gcs + {cid}) else s
    case FreeGC(gc) => s.(gcs := s.gcs - {gc})
    case ChangeWindowAttributes(w, p) =>
      if w == s.root && FitsRoot(s, p) then s.(background := Some(p)) else s
    case _ => s
  }

  /** No request frees a pixmap, and only a fresh id becomes a pixmap or a graphics context. */
  lemma StepAllocates(s: Store, r: Request)
    ensures var t := Step(s, r);
      && (forall p | p in s.pixmaps :: p in t.pixmaps && t.pixmaps[p] == s.pixmaps[p])
      && (forall p | p in t.pixmaps && p !in s.pixmaps :: r.CreatePixmap? && p == r.pid && FreshId(s, p))
      && (forall g | g in t.gcs && g !in s.gcs :: r.CreateGC? && g == r.cid && FreshId(s, g))
  {
  }

  /** The effect of a sequence of requests, in order. */
  function ApplyAll(s: Store, rs: seq<Request>): Store
    decreases |rs|
  {
    if rs == [] then s else ApplyAll(Step(s, rs[0]), rs[1..])
  }

  lemma {:induction false} ApplyAllAppend(s: Store, rs: seq<Request>, more: seq<Request>)
    ensures ApplyAll(s, rs + more) == ApplyAll(ApplyAll(s, rs), more)
    decreases |rs|
  {
    if rs == [] {
      assert rs + more == more;
    } else {
      assert (rs + more)[1..] == rs[1..] + more;
      ApplyAllAppend(Step(s, rs[0]), rs[1..], more);
    }
  }

  lemma ApplyAllCons(s: Store, r: Request, rest: seq<Request>)
    ensures ApplyAll(s, [r] + rest) == ApplyAll(Step(s, r), rest)
  {
    assert ([r] + rest)[1..] == rest;
  }

  lemma ApplyAllTwo(s: Store, a: Request, b: Request)
    ensures ApplyAll(s, [a, b]) == Step(Step(s, a), b)
  {
    var s1 := Step(s, a);
    assert [a, b][1..] == [b];
    assert ApplyAll(s, [a, b]) == ApplyAll(s1, [b]);
    assert [b][1..] == [];
    assert ApplyAll(s1, [b]) == ApplyAll(Step(s1, b), []);
  }

  lemma ApplyAllThree(s: Store, a: Request, b: Request, c: Request)
    ensures ApplyAll(s, [a, b, c]) == Step(Step(Step(s, a), b), c)
  {
    assert [a, b, c][1..] == [b, c];
    ApplyAllTwo(Step(s, a), b, c);
  }

  /** A GetProperty reply: the property's format and type, and the items returned, encoded. */
  datatype PropertyReply = PropertyReply(format: nat, propType: Option<Atom>, valueLen: nat, value: seq<byte>)

  /** The items one after another, each in `width` native-order bytes. */
  function EncodeItems(items: seq<u32>, width: nat, order: Order): (bs: seq<byte>)
    ensures |bs| == width * |items|
  {
    if items == [] then []
    else
      var n := |items| - 1;
      assert width * |items| == width * n + width;
      EncodeItems(items[..n], width, order) + Encode(items[n], width, order)
  }

  /**
   * The reply to GetProperty(root, a, type, longOffset 0, longLength): nothing
   * for a missing property, the type and format but no data for a type
   * mismatch, and otherwise the items that fit in longLength 4-byte units,
   * encoded in the client's byte order.
   */
  function GetPropertyReply(s: Store, a: Atom, propType: Atom, longLength: nat, order: Order): (reply: PropertyReply)
    ensures |reply.value| == reply.valueLen * (if a in s.props then s.props[a].format / 8 else 0)
    ensures a !in s.props ==> reply == PropertyReply(0, None, 0, [])
    ensures a in s.props ==> reply.format == s.props[a].format && reply.propType == Some(s.props[a].propType)
    ensures a in s.props && s.props[a].propType != propType ==> reply.valueLen == 0
    ensures a in s.props && s.props[a].propType == propType ==>
      var v := s.props[a];
      && reply.valueLen <= |v.items|
      && reply.valueLen * v.format <= 32 * longLength
      && (reply.valueLen < |v.items| ==> (reply.valueLen + 1) * v.format > 32 * longLength)
      && reply.value == EncodeItems(v.items[..reply.valueLen], v.format / 8, order)
  {
    if a !in s.props then PropertyReply(0, None, 0, [])
    else
      var v := s.props[a];
      if v.propType != propType then PropertyReply(v.format, Some(v.propType), 0, [])
      else
        var width := v.format / 8;
        var n := if |v.items| <= 4 * longLength / width then |v.items| else 4 * longLength / width;
        PropertyReply(v.format, Some(v.propType), n, EncodeItems(v.items[..n], width, order))
  }

  /**
   * A client connection: the setup it received, the server store it acts on,
   * the requests it has sent, and the next resource id it will hand out.
   */
  class Connection {
    const setup: Setup
    const hostOrder: Order
    var store: Store
    var log: seq<Request>
    var nextId: nat

    /**
     * The first screen exists, is non-empty and is the store's root; every
     * live resource id, the root's included, lies below the counter. The bound
     * stands for X's disjoint per-client id ranges: a resource of another
     * client, such as a retained background pixmap, is outside this client's
     * range, so the counter never produces its id.
     */
    ghost predicate Valid()
      reads this
    {
      && |setup.roots| > 0
      && store.root == setup.roots[0].root
      && store.rootDepth == setup.roots[0].rootDepth
      && setup.roots[0].widthInPixels > 0
      && setup.roots[0].heightInPixels > 0
      && store.root < nextId
      && (forall id | id in store.pixmaps :: id < nextId)
      && (forall id | id in store.gcs :: id < nextId)
    }

    constructor (setup: Setup, hostOrder: Order, store: Store, nextId: nat)
      ensures this.setup == setup && this.hostOrder == hostOrder
      ensures this.store == store && this.log == [] && this.nextId == nextId
    {
      this.setup := setup;
      this.hostOrder := hostOrder;
      this.store := store;
      this.log := [];
      this.nextId := nextId;
    }

    /** Reserve a resource id that no live resource uses (xcb_generate_id / allocate_resource_id). */
    method GenerateId() returns (r: Result<u32>)
      requires Valid()
      modifies this`nextId
      ensures Valid()
      ensures r.Ok? ==> FreshId(store, r.value) && r.value as int == old(nextId) && nextId == old(nextId) + 1
      ensures r.Err? ==> r.error == IdsExhausted && nextId == old(nextId)
    {
      if nextId < 0x1_0000_0000 {
        r := Ok(nextId as u32);
        nextId := nextId + 1;
      } else {
        r := Err(IdsExhausted);
      }
    }

    /** Send a request: it is logged and applied to the store. Resources may only use ids already handed out. */
    method Send(r: Request)
      requires Valid()
      requires r.CreatePixmap? ==> r.pid < nextId
      requires r.CreateGC? ==> r.cid < nextId
      modifies this`store, this`log
      ensures Valid()
      ensures store == Step(old(store), r)
      ensures log == old(log) + [r]
    {
      store := Step(store, r);
      log := log + [r];
    }

    /** GetGeometry, with its reply: the first screen's size and depth for its root, a pixmap's own geometry, or an error. */
    method GetGeometryOf(drawable: u32) returns (g: Option<PixmapGeometry>)
      requires Valid()
      modifies this`log
      ensures Valid()
      ensures log == old(log) + [GetGeometry(drawable)]
      ensures drawable == store.root ==>
        g == Some(PixmapGeometry(setup.roots[0].widthInPixels, setup.roots[0].heightInPixels, setup.roots[0].rootDepth))
      ensures drawable != store.root ==> g == if drawable in store.pixmaps then Some(store.pixmaps[drawable]) else None
    {
      log := log + [GetGeometry(drawable)];
      if drawable == store.root {
        var screen := setup.roots[0];
        g := Some(PixmapGeometry(screen.widthInPixels, screen.heightInPixels, screen.rootDepth));
      } else if drawable in store.pixmaps {
        g := Some(store.pixmaps[drawable]);
      } else {
        g := None;
      }
    }

    /** GetProperty on the root window, with its reply. */
    method GetPropertyOf(a: Atom, propType: Atom, longLength: nat) returns (reply: PropertyReply)
      requires Valid()
      modifies this`log
      ensures Valid()
      ensures log == old(log) + [GetProperty(store.root, a, propType, longLength)]
      ensures reply == GetPropertyReply(store, a, propType, longLength, hostOrder)
    {
      log := log + [GetProperty(store.root, a, propType, longLength)];
      reply := GetPropertyReply(store, a, propType, longLength, hostOrder);
    }
  }
}
