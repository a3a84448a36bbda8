/**
 * Display: the python-xlib utility around one display connection. It
 * caches the root window's geometry and the host byte order, scrapes the
 * root window into a pixmap, makes solid and image pixmaps, and publishes
 * a pixmap as the background.
 */
module Grab {
  import opened Wrappers
  import opened Bytes
  import opened XServer
  import opened Background
  import opened SetWallpaper
  import opened ChunkPlan

  /** The graphics context the scrape copies with: GXcopy, FillSolid, IncludeInferiors. */
  const ScrapeGcValues: GcValues := GcValues(Some(GXcopy), Some(FillSolid), Some(IncludeInferiors), None)

  /** The graphics context of a solid pixmap: only its foreground is set. */
  function SolidGcValues(color: u32): GcValues
  {
    GcValues(None, None, None, Some(color))
  }

  /** Pixmaps made from images always have depth 24. */
  const ImageDepth: nat := 24

  /** A decoded RGB image: its size and its pixels, row by row. */
  datatype Image = Image(width: nat, height: nat, pixels: seq<Rgb>)

  /** The requests scrape_root_window_into_pixmap sends once both ids are granted. */
  function ScrapeRequests(root: u32, p: u32, gc: u32, width: nat, height: nat, depth: nat): seq<Request>
  {
    [Request.CreatePixmap(depth, p, root, width, height), CreateGC(gc, root, ScrapeGcValues),
     CopyArea(root, p, gc, 0, 0, 0, 0, width, height), FreeGC(gc)]
  }

  /** The requests create_solid_pixmap sends once both ids are granted. */
  function SolidRequests(root: u32, p: u32, gc: u32, width: nat, height: nat, depth: nat, color: u32): seq<Request>
  {
    [Request.CreatePixmap(depth, p, root, width, height), CreateGC(gc, p, SolidGcValues(color)),
     FillRectangle(p, gc, 0, 0, width, height), FreeGC(gc)]
  }

  /** The store after a pixmap of the given geometry is created and a graphics context is created and freed. */
  function WithPixmap(s: Store, p: u32, g: PixmapGeometry): Store
  {
    if g.width > 0 && g.height > 0 then s.(pixmaps := s.pixmaps[p := g]) else s
  }

  lemma ApplyAllFour(s: Store, a: Request, b: Request, c: Request, d: Request)
    ensures ApplyAll(s, [a, b, c, d]) == Step(Step(Step(Step(s, a), b), c), d)
  {
    assert [a, b, c, d][1..] == [b, c, d];
    ApplyAllThree(Step(s, a), b, c, d);
  }

  /** Creating a pixmap and a graphics context with fresh ids and freeing that graphics context leaves only the pixmap. */
  lemma CreateFreeSteps(s: Store, create: Request, newGc: Request, p: u32, gc: u32)
    requires create.CreatePixmap? && create.pid == p && newGc.CreateGC? && newGc.cid == gc
    requires FreshId(s, p) && FreshId(s, gc) && p != gc
    ensures Step(Step(Step(s, create), newGc), FreeGC(gc))
         == WithPixmap(s, p, PixmapGeometry(create.width, create.height, create.depth))
  {
    var s1 := Step(s, create);
    assert s1 == WithPixmap(s, p, PixmapGeometry(create.width, create.height, create.depth));
    assert s1.gcs + {gc} - {gc} == s1.gcs;
  }

  /** A graphics context on a just-created pixmap exists only if the server accepted the pixmap, that is, if it is non-empty. */
  lemma CreateOnNewSteps(s: Store, p: u32, gc: u32, depth: nat, root: u32, width: nat, height: nat)
    requires FreshId(s, p) && FreshId(s, gc) && p != gc
    ensures Step(Step(s, Request.CreatePixmap(depth, p, root, width, height)), CreateGC(gc, p, DefaultGcValues)).gcs
         == s.gcs + if width > 0 && height > 0 then {gc} else {}
  {
    var s1 := Step(s, Request.CreatePixmap(depth, p, root, width, height));
    assert IsDrawable(s1, p) <==> width > 0 && height > 0;
  }

  /** A request that draws changes nothing the store records. */
  predicate Draws(r: Request)
  {
    r.CopyArea? || r.FillRectangle? || r.PutImage?
  }

  lemma DrawSequenceSteps(s: Store, create: Request, newGc: Request, draw: Request, p: u32, gc: u32)
    requires create.CreatePixmap? && create.pid == p && newGc.CreateGC? && newGc.cid == gc
    requires FreshId(s, p) && FreshId(s, gc) && p != gc && Draws(draw)
    ensures Step(Step(Step(Step(s, create), newGc), draw), FreeGC(gc))
         == WithPixmap(s, p, PixmapGeometry(create.width, create.height, create.depth))
  {
    var s2 := Step(Step(s, create), newGc);
    assert Step(s2, draw) == s2;
    CreateFreeSteps(s, create, newGc, p, gc);
  }

  /**
   * A create, create-GC, draw, free-GC sequence with fresh ids leaves the new
   * pixmap live and the graphics contexts as they were: the one it made is freed.
   */
  lemma DrawSequenceEffect(s: Store, create: Request, newGc: Request, draw: Request, p: u32, gc: u32)
    requires create.CreatePixmap? && create.pid == p && newGc.CreateGC? && newGc.cid == gc
    requires FreshId(s, p) && FreshId(s, gc) && p != gc && Draws(draw)
    ensures ApplyAll(s, [create, newGc, draw, FreeGC(gc)])
         == WithPixmap(s, p, PixmapGeometry(create.width, create.height, create.depth))
  {
    ApplyAllFour(s, create, newGc, draw, FreeGC(gc));
    DrawSequenceSteps(s, create, newGc, draw, p, gc);
  }

  /** Scraping the root window adds one pixmap of the screen's geometry and nothing else. */
  lemma ScrapeRequestsEffect(s: Store, p: u32, gc: u32, width: nat, height: nat, depth: nat)
    requires FreshId(s, p) && FreshId(s, gc) && p != gc
    ensures ApplyAll(s, ScrapeRequests(s.root, p, gc, width, height, depth))
         == WithPixmap(s, p, PixmapGeometry(width, height, depth))
  {
    DrawSequenceEffect(s, Request.CreatePixmap(depth, p, s.root, width, height), CreateGC(gc, s.root, ScrapeGcValues),
                       CopyArea(s.root, p, gc, 0, 0, 0, 0, width, height), p, gc);
  }

  /**
   * A solid pixmap: one pixmap of the screen's geometry, filled over its
   * whole area while a graphics context with foreground `color` is live
   * on it; no graphics context is left behind.
   */
  lemma SolidRequestsEffect(s: Store, root: u32, p: u32, gc: u32, width: nat, height: nat, depth: nat, color: u32)
    requires FreshId(s, p) && FreshId(s, gc) && p != gc && width > 0 && height > 0
    ensures var rs := SolidRequests(root, p, gc, width, height, depth, color);
      var t := ApplyAll(s, rs[..2]);
      && p in t.pixmaps && gc in t.gcs && rs[1].values.foreground == Some(color)
      && rs[2] == FillRectangle(p, gc, 0, 0, t.pixmaps[p].width, t.pixmaps[p].height)
      && ApplyAll(s, rs) == WithPixmap(s, p, PixmapGeometry(width, height, depth))
  {
    var rs := SolidRequests(root, p, gc, width, height, depth, color);
    assert rs[..2] == [rs[0], rs[1]];
    ApplyAllTwo(s, rs[0], rs[1]);
    DrawSequenceEffect(s, rs[0], rs[1], rs[2], p, gc);
    assert rs == [rs[0], rs[1], rs[2], FreeGC(gc)];
  }

  /** The requests of the upload loop: chunk k is put at row k*rows, declaring `rows` rows. */
  function UploadRequests(p: u32, gc: u32, width: nat, stride: nat, rows: nat, data: seq<byte>, n: nat): (rs: seq<Request>)
    ensures |rs| == n
  {
    seq(n, k requires 0 <= k < n => PutImage(p, gc, width, rows, 0, k * rows, 0, ImageDepth, ChunkData(data, stride, rows, k)))
  }

  /** The image bytes the requests carry, one after another. */
  function Payloads(rs: seq<Request>): seq<byte>
  {
    if rs == [] then [] else Payloads(rs[..|rs| - 1]) + (if rs[|rs| - 1].PutImage? then rs[|rs| - 1].data else [])
  }

  lemma {:induction false} UploadPayloads(p: u32, gc: u32, width: nat, stride: nat, rows: nat, data: seq<byte>, n: nat)
    ensures Payloads(UploadRequests(p, gc, width, stride, rows, data, n)) == Chunks(data, stride, rows, n)
  {
    if n > 0 {
      UploadPayloads(p, gc, width, stride, rows, data, n - 1);
      var rs := UploadRequests(p, gc, width, stride, rows, data, n);
      assert rs[..n - 1] == UploadRequests(p, gc, width, stride, rows, data, n - 1);
    }
  }

  /**
   * The upload sends the whole image, in order: with |data| = height*stride,
   * the payloads of the plan's requests put together are the image bytes.
   */
  lemma UploadCoversImage(p: u32, gc: u32, width: nat, stride: nat, rows: nat, height: nat, data: seq<byte>)
    requires rows > 0 && |data| == height * stride
    ensures Payloads(UploadRequests(p, gc, width, stride, rows, data, CeilDiv(height, rows))) == data
  {
    CeilDivBounds(height, rows);
    UploadPayloads(p, gc, width, stride, rows, data, CeilDiv(height, rows));
    ChunksCoverData(data, stride, rows, height);
  }

  /**
   * Every request of the upload fits in a request: its payload is at most
   * rows*stride <= max_length bytes; it is put at row k*rows and declares
   * rows_per_chunk rows, even when it carries fewer.
   */
  lemma UploadRequestBounds(p: u32, gc: u32, width: nat, stride: nat, maxLength: int, height: nat, data: seq<byte>, k: nat)
    requires stride > 0 && FloorDiv(maxLength, stride) > 0
    requires k < CeilDiv(height, FloorDiv(maxLength, stride))
    ensures var rows := FloorDiv(maxLength, stride);
      var r := UploadRequests(p, gc, width, stride, rows, data, CeilDiv(height, rows))[k];
      && |r.data| <= rows * stride <= maxLength
      && r.dstY == k * rows && r.height == rows && r.width == width && r.depth == ImageDepth
  {
    var rows := FloorDiv(maxLength, stride);
    ChunkSize(data, stride, rows, k);
    RowsFit(maxLength, stride);
  }

  /** rows_per_chunk: how many rows of `stride` bytes fit in one PutImage, by floor division. */
  function PlanRows(maxRequestLength: nat, stride: nat): int
    requires stride > 0
  {
    FloorDiv(MaxLength(maxRequestLength), stride)
  }

  /**
   * The upload loop for rows_per_chunk = rows: range(ceil(height/rows)), which
   * is empty when rows is negative.
   */
  function ImageRequests(p: u32, gc: u32, width: nat, height: nat, stride: nat, rows: int, data: seq<byte>): (rs: seq<Request>)
    requires rows != 0
    ensures forall q | q in rs :: q.PutImage? && q.drawable == p && q.gc == gc && q.depth == ImageDepth && q.leftPad == 0
    ensures rows < 0 ==> rs == []
  {
    if rows > 0 then UploadRequests(p, gc, width, stride, rows, data, CeilDiv(height, rows)) else []
  }

  /** All requests create_pixmap_from_image sends once both ids are granted and the plan divides. */
  function FromImageRequests(root: u32, p: u32, gc: u32, image: Image, stride: nat, rows: int, data: seq<byte>): seq<Request>
    requires rows != 0
  {
    [Request.CreatePixmap(ImageDepth, p, root, image.width, image.height), CreateGC(gc, p, DefaultGcValues)]
    + ImageRequests(p, gc, image.width, image.height, stride, rows, data) + [FreeGC(gc)]
  }

  /** The image's bytes, four per pixel, are exactly height rows of stride = 4*width bytes. */
  lemma PackedImageSize(image: Image, mode: RawMode, pad: byte)
    requires |image.pixels| == image.width * image.height
    ensures |PackPixels(image.pixels, mode, pad)| == image.height * (4 * image.width)
  {
    MulAssoc(4, image.width, image.height);
  }

  /**
   * What create_pixmap_from_image uploads is the image: the payloads, in
   * order, decoded with the same raw mode, are the image's pixels.
   */
  lemma ImageUploadRoundTrip(p: u32, gc: u32, image: Image, maxRequestLength: nat, mode: RawMode, pad: byte)
    requires |image.pixels| == image.width * image.height && image.width > 0
    requires PlanRows(maxRequestLength, 4 * image.width) > 0
    ensures var data := PackPixels(image.pixels, mode, pad);
      var rows := PlanRows(maxRequestLength, 4 * image.width);
      && Payloads(ImageRequests(p, gc, image.width, image.height, 4 * image.width, rows, data)) == data
      && UnpackPixels(Payloads(ImageRequests(p, gc, image.width, image.height, 4 * image.width, rows, data)), mode) == image.pixels
  {
    var data := PackPixels(image.pixels, mode, pad);
    PackedImageSize(image, mode, pad);
    UploadCoversImage(p, gc, image.width, 4 * image.width, PlanRows(maxRequestLength, 4 * image.width), image.height, data);
    UnpackPackPixels(image.pixels, mode, pad);
  }

  /** The record names set_background_to_pixmap writes, in order. */
  const RecordNames: seq<string> := [XRootPmapId, ESetRootPmapId]

  /** The requests of the property loop over `names`, in order. */
  function NamesWritten(root: u32, names: seq<string>, p: u32): seq<Request>
  {
    if names == [] then [] else NamesWritten(root, names[..|names| - 1], p) + WriteRequests(root, names[|names| - 1], p)
  }

  /** The store after the property loop over `names`. */
  function StoreWritten(s: Store, names: seq<string>, p: u32): (t: Store)
    ensures t.root == s.root && t.background == s.background && t.pixmaps == s.pixmaps
  {
    if names == [] then s else PropertyWritten(StoreWritten(s, names[..|names| - 1], p), names[|names| - 1], p)
  }

  /** Sending the loop's requests writes every name in turn. */
  lemma {:induction false} NamesWrittenEffect(s: Store, names: seq<string>, p: u32)
    ensures ApplyAll(s, NamesWritten(s.root, names, p)) == StoreWritten(s, names, p)
  {
    if names != [] {
      var init := names[..|names| - 1];
      var last := names[|names| - 1];
      NamesWrittenEffect(s, init, p);
      ApplyAllAppend(s, NamesWritten(s.root, init, p), WriteRequests(s.root, last, p));
      WriteRequestsEffect(StoreWritten(s, init, p), last, p);
    }
  }

  /** Over the two record names the loop is set_background's two property writes. */
  lemma RecordNamesWritten(root: u32, s: Store, p: u32)
    ensures NamesWritten(root, RecordNames, p)
         == WriteRequests(root, XRootPmapId, p) + WriteRequests(root, ESetRootPmapId, p)
    ensures StoreWritten(s, RecordNames, p)
         == PropertyWritten(PropertyWritten(s, XRootPmapId, p), ESetRootPmapId, p)
  {
    var first := RecordNames[..1];
    assert first == [XRootPmapId] && first[..0] == [];
    assert NamesWritten(root, first, p) == [] + WriteRequests(root, XRootPmapId, p);
    assert StoreWritten(s, first, p) == PropertyWritten(s, XRootPmapId, p);
  }

  /** The requests set_background_to_pixmap sends: both properties, a geometry query, the attribute, a clear and a flush. */
  function DisplayPublishRequests(root: u32, p: u32, width: nat, height: nat): seq<Request>
  {
    NamesWritten(root, RecordNames, p) + ([GetGeometry(root)] + AttributeRequests(root, p, width, height))
  }

  /** Sending set_background_to_pixmap's requests publishes the pixmap, as set_background does. */
  lemma DisplayPublishRequestsPublish(s: Store, p: u32, width: nat, height: nat)
    ensures ApplyAll(s, DisplayPublishRequests(s.root, p, width, height)) == Published(s, p)
  {
    var attrs := AttributeRequests(s.root, p, width, height);
    var s4 := StoreWritten(s, RecordNames, p);
    ApplyAllAppend(s, NamesWritten(s.root, RecordNames, p), [GetGeometry(s.root)] + attrs);
    NamesWrittenEffect(s, RecordNames, p);
    ApplyAllCons(s4, GetGeometry(s.root), attrs);
    AttributeRequestsEffect(s4, p, width, height);
    RecordNamesWritten(s.root, s, p);
    PublishedAfterWrites(s, p);
  }

  /**
   * An uploaded image is always of depth 24, so it becomes the root's
   * background only on a root of that depth; on any other root the server
   * refuses the attribute and only the two properties change.
   */
  lemma ImageBackgroundNeedsDepth(s: Store, p: u32, width: nat, height: nat)
    requires FreshId(s, p) && width > 0 && height > 0
    ensures var u := WithPixmap(s, p, PixmapGeometry(width, height, ImageDepth));
      var t := ApplyAll(u, DisplayPublishRequests(s.root, p, width, height));
      && (s.rootDepth == ImageDepth ==> t.background == Some(p))
      && (s.rootDepth != ImageDepth ==> t.background == s.background)
      && t.props == Published(s, p).props
  {
    var u := WithPixmap(s, p, PixmapGeometry(width, height, ImageDepth));
    DisplayPublishRequestsPublish(u, p, width, height);
  }

  class Display {
    const conn: Connection
    const screen: Screen
    const root: u32
    const width: nat
    const height: nat
    const depth: nat
    /** 1 on a big-endian host, 0 otherwise. */
    const bigEndian: byte

    ghost predicate Valid()
      reads this, conn
    {
      && conn.Valid()
      && screen == conn.setup.roots[0]
      && root == screen.root
      && width == screen.widthInPixels
      && height == screen.heightInPixels
      && depth == screen.rootDepth
      && bigEndian == BigEndianFlag(conn.hostOrder)
    }

    /** Takes the root window's geometry from a GetGeometry reply and probes the host byte order. */
    constructor (conn: Connection)
      requires conn.Valid()
      modifies conn
      ensures Valid() && this.conn == conn
      ensures bigEndian == (if conn.hostOrder == BigEndian then 1 else 0)
      ensures conn.log == old(conn.log) + [GetGeometry(conn.setup.roots[0].root)]
      ensures conn.store == old(conn.store) && conn.nextId == old(conn.nextId)
    {
      var screen := conn.setup.roots[0];
      var g := conn.GetGeometryOf(screen.root);
      this.conn := conn;
      this.screen := screen;
      this.root := screen.root;
      this.width := g.value.width;
      this.height := g.value.height;
      this.depth := g.value.depth;
      this.bigEndian := BigEndianFlag(conn.hostOrder);
    }

    /**
     * scrape_root_window_into_pixmap: a screen-sized pixmap, a copying,
     * include-inferiors graphics context, a copy of the full root area, and
     * the graphics context freed again.
     */
    method ScrapeRootWindowIntoPixmap() returns (r: Result<u32>, gc: u32)
      requires Valid()
      modifies conn
      ensures Valid()
      ensures r.Err? ==> r.error == IdsExhausted
      ensures r.Ok? ==> FreshId(old(conn.store), r.value) && FreshId(old(conn.store), gc) && r.value != gc
      ensures r.Ok? ==> conn.log == old(conn.log) + ScrapeRequests(root, r.value, gc, width, height, depth)
      ensures r.Ok? ==> conn.store == WithPixmap(old(conn.store), r.value, PixmapGeometry(width, height, depth))
      ensures conn.store.gcs == old(conn.store).gcs
    {
      gc := 0;
      r := conn.GenerateId();
      if r.Err? {
        return;
      }
      var pixmap := r.value;
      ghost var s0 := conn.store;
      var create := Request.CreatePixmap(depth, pixmap, root, width, height);
      conn.Send(create);
      var g := conn.GenerateId();
      if g.Err? {
        return Err(g.error), gc;
      }
      gc := g.value;
      var newGc := CreateGC(gc, root, ScrapeGcValues);
      var copy := CopyArea(root, pixmap, gc, 0, 0, 0, 0, width, height);
      conn.Send(newGc);
      conn.Send(copy);
      conn.Send(FreeGC(gc));
      DrawSequenceSteps(s0, create, newGc, copy, pixmap, gc);
    }

    /** create_solid_pixmap: a screen-sized pixmap filled over its whole area with a graphics context whose foreground is `color`. */
    method CreateSolidPixmap(color: u32) returns (r: Result<u32>, gc: u32)
      requires Valid()
      modifies conn
      ensures Valid()
      ensures r.Err? ==> r.error == IdsExhausted
      ensures r.Ok? ==> FreshId(old(conn.store), r.value) && FreshId(old(conn.store), gc) && r.value != gc
      ensures r.Ok? ==> conn.log == old(conn.log) + SolidRequests(root, r.value, gc, width, height, depth, color)
      ensures r.Ok? ==> conn.store == WithPixmap(old(conn.store), r.value, PixmapGeometry(width, height, depth))
      ensures conn.store.gcs == old(conn.store).gcs
    {
      gc := 0;
      r := conn.GenerateId();
      if r.Err? {
        return;
      }
      var pixmap := r.value;
      ghost var s0 := conn.store;
      var create := Request.CreatePixmap(depth, pixmap, root, width, height);
      conn.Send(create);
      var g := conn.GenerateId();
      if g.Err? {
        return Err(g.error), gc;
      }
      gc := g.value;
      var newGc := CreateGC(gc, pixmap, SolidGcValues(color));
      var fill := FillRectangle(pixmap, gc, 0, 0, width, height);
      conn.Send(newGc);
      conn.Send(fill);
      conn.Send(FreeGC(gc));
      DrawSequenceSteps(s0, create, newGc, fill, pixmap, gc);
    }

    /**
     * create_pixmap_from_image: a depth-24 pixmap of the image's size, a
     * default graphics context, the packed image sent in row chunks of
     * rows_per_chunk = max_length // stride rows, and the graphics context
     * freed. A zero stride or a zero rows_per_chunk raises ZeroDivisionError
     * after both creation requests were sent, so the graphics context is
     * never freed; it exists only when the image is non-empty, since the
     * server refuses a zero-sized pixmap and then a context on it.
     */
    method CreatePixmapFromImage(image: Image, pad: byte) returns (r: Result<u32>, gc: u32)
      requires Valid() && |image.pixels| == image.width * image.height
      modifies conn
      ensures Valid()
      ensures r.Err? ==> r.error == IdsExhausted || r.error == ZeroDivision
      ensures r == Err(ZeroDivision) ==> FreshId(old(conn.store), gc)
      ensures r == Err(ZeroDivision) ==>
        conn.store.gcs == old(conn.store).gcs + if image.width > 0 && image.height > 0 then {gc} else {}
      ensures r == Err(ZeroDivision) ==> image.width == 0 || PlanRows(conn.setup.maxRequestLength, 4 * image.width) == 0
      ensures r.Ok? ==> image.width > 0 && PlanRows(conn.setup.maxRequestLength, 4 * image.width) != 0
      ensures r.Ok? ==> FreshId(old(conn.store), r.value) && FreshId(old(conn.store), gc) && r.value != gc
      ensures r.Ok? ==> conn.log == old(conn.log) + FromImageRequests(root, r.value, gc, image, 4 * image.width,
                          PlanRows(conn.setup.maxRequestLength, 4 * image.width), PackPixels(image.pixels, RawModeFor(bigEndian), pad))
      ensures r.Ok? ==> conn.store == WithPixmap(old(conn.store), r.value, PixmapGeometry(image.width, image.height, ImageDepth))
    {
      var stride := 4 * image.width;
      var data := PackPixels(image.pixels, RawModeFor(bigEndian), pad);
      ghost var s0 := conn.store;
      ghost var log0 := conn.log;
      r, gc := CreateImageResources(image.width, image.height);
      if r.Err? {
        return;
      }
      var pixmap := r.value;
      var create := Request.CreatePixmap(ImageDepth, pixmap, root, image.width, image.height);
      var newGc := CreateGC(gc, pixmap, DefaultGcValues);
      var maxLength := MaxLength(conn.setup.maxRequestLength);
      if stride == 0 || FloorDiv(maxLength, stride) == 0 {
        CreateOnNewSteps(s0, pixmap, gc, ImageDepth, root, image.width, image.height);
        return Err(ZeroDivision), gc;
      }
      var rows := FloorDiv(maxLength, stride);
      PutImageChunks(pixmap, gc, image.width, image.height, stride, rows, data);
      conn.Send(FreeGC(gc));
      CreateFreeSteps(s0, create, newGc, pixmap, gc);
      assert conn.log == log0 + [create, newGc] + ImageRequests(pixmap, gc, image.width, image.height, stride, rows, data) + [FreeGC(gc)];
    }

    /** The first half of create_pixmap_from_image: a depth-24 pixmap of the image's size and a default graphics context on it. */
    method CreateImageResources(width: nat, height: nat) returns (r: Result<u32>, gc: u32)
      requires Valid()
      modifies conn
      ensures Valid()
      ensures r.Err? ==> r.error == IdsExhausted
      ensures r.Ok? ==> FreshId(old(conn.store), r.value) && FreshId(old(conn.store), gc) && r.value != gc
      ensures r.Ok? ==>
        conn.log == old(conn.log) + [Request.CreatePixmap(ImageDepth, r.value, root, width, height),
                                     CreateGC(gc, r.value, DefaultGcValues)]
      ensures r.Ok? ==> conn.store == Step(Step(old(conn.store), Request.CreatePixmap(ImageDepth, r.value, root, width, height)),
                                           CreateGC(gc, r.value, DefaultGcValues))
    {
      gc := 0;
      r := conn.GenerateId();
      if r.Err? {
        return;
      }
      var pixmap := r.value;
      conn.Send(Request.CreatePixmap(ImageDepth, pixmap, root, width, height));
      var g := conn.GenerateId();
      if g.Err? {
        return Err(g.error), gc;
      }
      gc := g.value;
      conn.Send(CreateGC(gc, pixmap, DefaultGcValues));
    }

    /** The chunk loop of create_pixmap_from_image: chunk k is put at row k*rows, declaring rows rows. */
    method PutImageChunks(pixmap: u32, gc: u32, width: nat, height: nat, stride: nat, rows: int, data: seq<byte>)
      requires Valid() && rows != 0
      modifies conn`log, conn`store
      ensures Valid() && conn.store == old(conn.store)
      ensures conn.log == old(conn.log) + ImageRequests(pixmap, gc, width, height, stride, rows, data)
    {
      var chunks := CeilDiv(height, rows);
      if rows < 0 {
        CeilDivNonPositive(height, rows);
      } else {
        CeilDivBounds(height, rows);
      }
      var k := 0;
      while k < chunks
        invariant 0 <= k <= if chunks > 0 then chunks else 0
        invariant chunks > 0 ==> rows > 0
        invariant Valid() && conn.store == old(conn.store)
        invariant conn.log == old(conn.log) + UploadRequests(pixmap, gc, width, stride, if rows > 0 then rows else 0, data, k)
      {
        var y := k * rows;
        ghost var before := UploadRequests(pixmap, gc, width, stride, rows, data, k);
        conn.Send(PutImage(pixmap, gc, width, rows, 0, y, 0, ImageDepth, PySlice(data, y * stride, (y + rows) * stride)));
        assert UploadRequests(pixmap, gc, width, stride, rows, data, k + 1)
            == before + [PutImage(pixmap, gc, width, rows, 0, y, 0, ImageDepth, ChunkData(data, stride, rows, k))];
        k := k + 1;
      }
    }

    /** One pass of set_background_to_pixmap's loop: intern the name and replace the property with the pixmap. */
    method WriteRecord(name: string, pixmap: u32)
      requires Valid()
      modifies conn`log, conn`store
      ensures Valid()
      ensures conn.log == old(conn.log) + WriteRequests(root, name, pixmap)
      ensures conn.store == PropertyWritten(old(conn.store), name, pixmap)
    {
      conn.Send(Request.InternAtom(name));
      conn.Send(ChangeProperty(root, Atom(name), PIXMAP, 32, [pixmap]));
    }

    /**
     * set_background_to_pixmap: for each record name in turn, intern it and
     * replace the property with the pixmap; then query the root geometry,
     * set the background attribute, clear the screen and flush.
     */
    method SetBackgroundToPixmap(pixmap: u32)
      requires Valid()
      modifies conn`log, conn`store
      ensures Valid()
      ensures conn.log == old(conn.log) + DisplayPublishRequests(root, pixmap, width, height)
      ensures conn.store == Published(old(conn.store), pixmap)
    {
      var names := RecordNames;
      for i := 0 to |names|
        invariant Valid()
        invariant conn.log == old(conn.log) + NamesWritten(root, names[..i], pixmap)
        invariant conn.store == StoreWritten(old(conn.store), names[..i], pixmap)
      {
        assert names[..i + 1][..i] == names[..i];
        WriteRecord(names[i], pixmap);
      }
      assert names[..2] == names;
      RecordNamesWritten(root, old(conn.store), pixmap);
      ghost var written := conn.log;
      conn.Send(GetGeometry(root));
      conn.Send(ChangeWindowAttributes(root, pixmap));
      conn.Send(ClearArea(root, 0, 0, width, height));
      conn.Send(Flush);
      PublishedAfterWrites(old(conn.store), pixmap);
      assert conn.log == written + ([GetGeometry(root)] + AttributeRequests(root, pixmap, width, height));
    }
  }
}
