/** The host's loops over a bundle: growing the body entry by entry, and the validator's cursor walk. */
module BundleHost {
  import opened ByteStrings
  import opened Wrappers
  import opened Bundle

  lemma {:induction false} EncodeSnoc(items: seq<Item>, i: Item)
    requires AllFit(items) && WireFits(i)
    ensures AllFit(items + [i]) && EncodeItems(items + [i]) == EncodeItems(items) + EncodeItem(i)
  {
    hide EncodeItem, WireFits;
    if items == [] {
      assert items + [i] == [i] && [i][1..] == [];
      assert EncodeItems([i]) == EncodeItem(i) + [];
    } else {
      assert (items + [i])[1..] == items[1..] + [i];
      EncodeSnoc(items[1..], i);
      assert EncodeItem(items[0]) + (EncodeItems(items[1..]) + EncodeItem(i))
          == (EncodeItem(items[0]) + EncodeItems(items[1..])) + EncodeItem(i);
    }
  }

  lemma {:induction false} ToItemsSnoc(rs: seq<Retained>, r: Retained)
    ensures ToItems(rs + [r]) ==
      if ToItems(rs).Some? && ToItem(r).Some? then Some(ToItems(rs).value + [ToItem(r).value]) else None
  {
    hide ToItem;
    if rs == [] {
      assert rs + [r] == [r] && [r][1..] == [];
      if ToItem(r).Some? {
        assert ToItems([r]) == Some([ToItem(r).value] + []);
        assert [ToItem(r).value] + [] == [] + [ToItem(r).value];
      }
    } else {
      assert (rs + [r])[1..] == rs[1..] + [r];
      ToItemsSnoc(rs[1..], r);
      if ToItems(rs).Some? && ToItem(r).Some? {
        assert [ToItem(rs[0]).value] + (ToItems(rs[1..]).value + [ToItem(r).value]) == ToItems(rs).value
          + [ToItem(r).value];
      }
    }
  }

  /** `_runtime_bundle`: the body grown by one entry at a time, then the trailer. */
  method EncodeBundle(rs: seq<Retained>) returns (r: Option<seq<Byte>>)
    ensures r == RuntimeBundle(rs)
  {
    hide ToItem, ToItems, EncodeItems, EncodeItem, WireFits, LE32, LE64, Zeros;
    if |rs| >= TWO32 {
      return None;
    }
    var body := HEAD_MAGIC + LE32(|rs|) + Zeros(4);
    ghost var head := body;
    var index := 0;
    EmptyLists();
    assert rs[..0] == [] && head + [] == head;
    while index < |rs|
      invariant 0 <= index <= |rs|
      invariant ToItems(rs[..index]).Some? && body == head + EncodeItems(ToItems(rs[..index]).value)
    {
      ToItemsSnoc(rs[..index], rs[index]);
      assert rs[..index + 1] == rs[..index] + [rs[index]];
      var i := ToItem(rs[index]);
      if i.None? {
        return None;
      }
      EncodeSnoc(ToItems(rs[..index]).value, i.value);
      body := body + EncodeItem(i.value);
      index := index + 1;
    }
    assert rs[..|rs|] == rs;
    if |body| >= TWO64 {
      return None;
    }
    r := Some(body + (END_MAGIC + LE64(|body|)));
  }

  lemma EmptyLists()
    ensures ToItems([]) == Some([]) && EncodeItems([]) == []
  {}

  lemma DecodeStep(body: seq<Byte>, count: nat, seen: set<seq<Byte>>)
    requires count > 0
    ensures Frame(body).Some? ==> Length(Frame(body).value) <= |body|
    ensures Decode(body, count, seen) ==
      if Frame(body).None? || !Accepted(Frame(body).value, seen) then None
      else Joined([Frame(body).value],
                  Decode(body[Length(Frame(body).value)..], count - 1, seen + {Frame(body).value.path}))
  {
    hide Accepted, FromLE;
  }

  /** The bundle walk of `validate_canonical_initramfs`, cursor and duplicate set included. */
  method Walk(file: seq<Byte>, at: Span, count: nat) returns (r: Option<seq<Item>>)
    requires at.start + 16 <= at.end && at.end + 16 == |file|
    ensures r == Decode(file[at.start + 16..at.end], count, {})
  {
    hide Decode, Frame, Accepted;
    var body := file[at.start + 16..at.end];
    var cursor := 0;
    var index := 0;
    var destinations: set<seq<Byte>> := {};
    var items: seq<Item> := [];
    assert body[0..] == body;
    JoinedStart(Decode(body, count, {}));
    while index < count
      invariant 0 <= index <= count && 0 <= cursor <= |body|
      invariant Decode(body, count, {}) == Joined(items, Decode(body[cursor..], count - index, destinations))
    {
      ghost var left := body[cursor..];
      var i := Frame(body[cursor..]);
      DecodeStep(left, count - index, destinations);
      if i.None? || !Accepted(i.value, destinations) {
        return None;
      }
      assert left[Length(i.value)..] == body[cursor + Length(i.value)..];
      JoinedMore(items, i.value, Decode(body[cursor + Length(i.value)..], count - index - 1,
                                        destinations + {i.value.path}));
      destinations := destinations + {i.value.path};
      items := items + [i.value];
      cursor := cursor + Length(i.value);
      index := index + 1;
    }
    DecodeEnd(body[cursor..], destinations);
    JoinedEnds(items);
    r := if cursor == |body| then Some(items) else None;
  }

  lemma DecodeEnd(body: seq<Byte>, seen: set<seq<Byte>>)
    ensures Decode(body, 0, seen) == if body == [] then Some([]) else None
  {}
}
