/**
 * The background record: the two root-window properties through which
 * desktop programs publish the background pixmap, how a reader decodes them,
 * and what publishing a pixmap does to the server store.
 */
module Background {
  import opened Wrappers
  import opened Bytes
  import opened XServer

  const XRootPmapId: string := "_XROOTPMAP_ID"
  const ESetRootPmapId: string := "ESETROOT_PMAP_ID"

  /** GetProperty asks for at most this many 4-byte units. */
  const PropertyLongLength: nat := 32

  /** The value a publisher writes: one 32-bit item of type PIXMAP. */
  function PixmapValue(p: u32): PropertyValue
  {
    PropertyValue(PIXMAP, 32, [p])
  }

  /**
   * The pixmap a GetProperty reply holds: none when it carries no value,
   * otherwise the 4-byte buffer unpacked as a native 32-bit integer, which
   * fails for a buffer of any other length.
   */
  function PixmapFromReply(reply: PropertyReply, order: Order): (r: Result<Option<u32>>)
    ensures r == Ok(None) <==> reply.valueLen == 0
    ensures r.Err? <==> reply.valueLen != 0 && |reply.value| != 4
    ensures r.Err? ==> r.error == StructError
    ensures r.Ok? && r.value.Some? ==> Pack32(r.value.value, order) == reply.value
  {
    if reply.valueLen == 0 then Ok(None)
    else
      match Unpack32(reply.value, order)
      case Ok(v) => Ok(Some(v))
      case Err(e) => Err(e)
  }

  /** Reading the named root property as a pixmap. */
  function ReadPixmapProperty(s: Store, name: string, order: Order): (r: Result<Option<u32>>)
    ensures r.Err? ==> r.error == StructError
    ensures r.Ok? && r.value.Some? ==> Atom(name) in s.props && s.props[Atom(name)].propType == PIXMAP
  {
    PixmapFromReply(GetPropertyReply(s, Atom(name), PIXMAP, PropertyLongLength, order), order)
  }

  /**
   * A missing property, one of another type, or one without items reads as
   * no pixmap; a PIXMAP property reads as a pixmap exactly when its items
   * fill 32 bits, and otherwise the read fails.
   */
  lemma ReadPixmapPropertyCases(s: Store, name: string, order: Order)
    ensures var a := Atom(name);
      (ReadPixmapProperty(s, name, order) == Ok(None)) <==>
      (a !in s.props || s.props[a].propType != PIXMAP || s.props[a].items == [])
    ensures var a := Atom(name);
      ReadPixmapProperty(s, name, order).Err? <==>
      (a in s.props && s.props[a].propType == PIXMAP && s.props[a].items != []
       && s.props[a].format * |s.props[a].items| != 32)
  {
    var a := Atom(name);
    if a in s.props && s.props[a].propType == PIXMAP {
      var v := s.props[a];
      var reply := GetPropertyReply(s, a, PIXMAP, PropertyLongLength, order);
      var k := |v.items|;
      if v.format == 8 {
        assert reply.valueLen == (if k <= 128 then k else 128);
        assert |reply.value| == reply.valueLen;
      } else if v.format == 16 {
        assert reply.valueLen == (if k <= 64 then k else 64);
        assert |reply.value| == 2 * reply.valueLen;
      } else {
        assert reply.valueLen == (if k <= 32 then k else 32);
        assert |reply.value| == 4 * reply.valueLen;
      }
    }
  }

  /** A read sees only the properties of the store. */
  lemma ReadSeesProps(s: Store, t: Store, name: string, order: Order)
    requires s.props == t.props
    ensures ReadPixmapProperty(s, name, order) == ReadPixmapProperty(t, name, order)
  {
  }

  /** Writing a pixmap id as one 32-bit PIXMAP item and reading it back gives the id. */
  lemma ReadPixmapValue(s: Store, name: string, order: Order, p: u32)
    requires Atom(name) in s.props && s.props[Atom(name)] == PixmapValue(p)
    ensures ReadPixmapProperty(s, name, order) == Ok(Some(p))
  {
    var reply := GetPropertyReply(s, Atom(name), PIXMAP, PropertyLongLength, order);
    assert [p][..1] == [p];
    assert EncodeItems([p], 4, order) == Encode(p, 4, order) by {
      assert [p][..0] == [];
    }
    assert reply.value == Pack32(p, order);
    Unpack32Pack32(p, order);
  }

  /**
   * get_current_background: the _XROOTPMAP_ID pixmap if that property holds
   * one, otherwise whatever ESETROOT_PMAP_ID gives; a failed first read is
   * not retried with the second property.
   */
  function CurrentBackground(s: Store, order: Order): (r: Result<Option<u32>>)
    ensures ReadPixmapProperty(s, XRootPmapId, order) != Ok(None) ==> r == ReadPixmapProperty(s, XRootPmapId, order)
    ensures ReadPixmapProperty(s, XRootPmapId, order) == Ok(None) ==> r == ReadPixmapProperty(s, ESetRootPmapId, order)
    // a pixmap comes from one of the two record properties, and holds PIXMAP items there
    ensures r.Ok? && r.value.Some? ==>
      exists name | name in {XRootPmapId, ESetRootPmapId} :: Atom(name) in s.props && s.props[Atom(name)].propType == PIXMAP
    ensures r.Err? ==> r.error == StructError
  {
    var first := ReadPixmapProperty(s, XRootPmapId, order);
    if first == Ok(None) then ReadPixmapProperty(s, ESetRootPmapId, order) else first
  }

  /** With neither property set there is no current background. */
  lemma NoRecordNoBackground(s: Store, order: Order)
    requires Atom(XRootPmapId) !in s.props && Atom(ESetRootPmapId) !in s.props
    ensures CurrentBackground(s, order) == Ok(None)
  {
    ReadPixmapPropertyCases(s, XRootPmapId, order);
    ReadPixmapPropertyCases(s, ESetRootPmapId, order);
  }

  /** Only ESETROOT_PMAP_ID set: the fallback finds its pixmap. */
  lemma FallbackToESetRoot(s: Store, order: Order, p: u32)
    requires Atom(XRootPmapId) !in s.props
    requires Atom(ESetRootPmapId) in s.props && s.props[Atom(ESetRootPmapId)] == PixmapValue(p)
    ensures CurrentBackground(s, order) == Ok(Some(p))
  {
    ReadPixmapPropertyCases(s, XRootPmapId, order);
    ReadPixmapValue(s, ESetRootPmapId, order, p);
  }

  /**
   * The store after publishing `p`: both properties hold `p`, the root's
   * background attribute is `p` if `p` is a live pixmap of the root's depth
   * (the server rejects any other), and nothing else changes.
   */
  function Published(s: Store, p: u32): (t: Store)
    ensures t.root == s.root && t.rootDepth == s.rootDepth
    ensures t.pixmaps == s.pixmaps && t.gcs == s.gcs && t.retain == s.retain
    ensures t.atoms == s.atoms + {XRootPmapId, ESetRootPmapId}
  {
    s.(atoms := s.atoms + {XRootPmapId, ESetRootPmapId},
       props := s.props[Atom(XRootPmapId) := PixmapValue(p)][Atom(ESetRootPmapId) := PixmapValue(p)],
       background := if FitsRoot(s, p) then Some(p) else s.background)
  }

  /** What publishing changes and what it leaves alone. */
  lemma PublishedFrame(s: Store, p: u32)
    ensures var t := Published(s, p);
      && t.props[Atom(XRootPmapId)] == PixmapValue(p)
      && t.props[Atom(ESetRootPmapId)] == PixmapValue(p)
      && (forall a | a != Atom(XRootPmapId) && a != Atom(ESetRootPmapId) :: (a in t.props <==> a in s.props))
      && (forall a | a in s.props && a != Atom(XRootPmapId) && a != Atom(ESetRootPmapId) :: t.props[a] == s.props[a])
      && (p in s.pixmaps && s.pixmaps[p].depth == s.rootDepth ==> t.background == Some(p))
      && (p !in s.pixmaps || s.pixmaps[p].depth != s.rootDepth ==> t.background == s.background)
      && t.pixmaps == s.pixmaps && t.gcs == s.gcs && t.retain == s.retain && t.root == s.root
  {
  }

  /** After publishing `p` both properties read as `p`, and so does the current background. */
  lemma PublishedReadBack(s: Store, p: u32, order: Order)
    ensures ReadPixmapProperty(Published(s, p), XRootPmapId, order) == Ok(Some(p))
    ensures ReadPixmapProperty(Published(s, p), ESetRootPmapId, order) == Ok(Some(p))
    ensures CurrentBackground(Published(s, p), order) == Ok(Some(p))
  {
    ReadPixmapValue(Published(s, p), XRootPmapId, order, p);
    ReadPixmapValue(Published(s, p), ESetRootPmapId, order, p);
  }

  /** The current background, too, depends only on the properties. */
  lemma CurrentBackgroundSeesProps(s: Store, t: Store, order: Order)
    requires s.props == t.props
    ensures CurrentBackground(s, order) == CurrentBackground(t, order)
  {
    ReadSeesProps(s, t, XRootPmapId, order);
    ReadSeesProps(s, t, ESetRootPmapId, order);
  }

  /** Interning either record atom before publishing makes no difference to the result. */
  lemma PublishedAbsorbsAtoms(s: Store, p: u32, atoms: set<string>)
    requires s.atoms <= atoms <= s.atoms + {XRootPmapId, ESetRootPmapId}
    ensures Published(s.(atoms := atoms), p) == Published(s, p)
  {
  }

  /** Publishing the same pixmap twice leaves the state of publishing it once. */
  lemma PublishedIdempotent(s: Store, p: u32)
    ensures Published(Published(s, p), p) == Published(s, p)
  {
  }
}
