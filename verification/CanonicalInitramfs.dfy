/**
 * Surgery on the canonical ramdisk: the dispatcher replaces /init, a patched copy of the canonical init is
 * added behind it, and a validator checks that nothing else changed.
 */
module CanonicalInitramfs {
  import opened ByteStrings
  import opened Wrappers
  import opened Newc
  import opened NewcParser
  import Bundle

  const INIT: seq<Byte> := Ascii("init")
  const ORIGINAL_INIT_NAME: seq<Byte> := Ascii("init.treeforge-bootstrap-original")
  const FIRST_STAGE_INIT_NAME: seq<Byte> := Ascii("init.treeforge-bootstrap-first-stage")
  const RETAINED_PREFIX: seq<Byte> := Ascii("treeforge-bootstrap-retained/")
  const TRANSITION_SOURCE: seq<Byte> := Ascii("/system/bin/init") + [0]
  const TRANSITION_TARGET: seq<Byte> := Ascii("/proc/self/fd/99") + [0]
  const LITERAL: nat := 17
  const ELF_MAGIC: seq<Byte> := [0x7f, 0x45, 0x4c, 0x46]
  const MARKERS: seq<seq<Byte>> := [
    Ascii("TREEFORGE_MENU_PROFILE_V1"),
    Ascii("/dev/treeforge-bootstrap-runtime/treeforge-bootstrap-adb-service"),
    Ascii("/dev/treeforge_bootstrap_fb")
  ]

  // ---- the transition literal ----

  predicate LiteralAt(s: seq<Byte>, i: nat) {
    i + LITERAL <= |s| && s[i..i + LITERAL] == TRANSITION_SOURCE
  }

  /** `bytes.count`: matches found left to right from `i`, each search resuming behind the last match. */
  function CountFrom(s: seq<Byte>, i: nat): nat
    decreases |s| - i
  {
    if i + LITERAL > |s| then 0
    else if LiteralAt(s, i) then 1 + CountFrom(s, i + LITERAL)
    else CountFrom(s, i + 1)
  }

  function FirstFrom(s: seq<Byte>, i: nat): (r: Option<nat>)
    decreases |s| - i
  {
    if i + LITERAL > |s| then None else if LiteralAt(s, i) then Some(i) else FirstFrom(s, i + 1)
  }

  /** The canonical init with its one transition literal replaced; None unless there is exactly one. */
  function PatchedFirstStage(init: seq<Byte>): Option<seq<Byte>> {
    if CountFrom(init, 0) != 1 then None
    else
      match FirstFrom(init, 0)
      case None => None
      case Some(i) => if i + LITERAL > |init| then None else Some(init[..i] + TRANSITION_TARGET + init[i + LITERAL..])
  }

  lemma {:induction false} NoneCounted(s: seq<Byte>, i: nat, j: nat)
    requires CountFrom(s, i) == 0 && i <= j
    ensures !LiteralAt(s, j)
    decreases |s| - i
  {
    if i + LITERAL <= |s| && i < j {
      NoneCounted(s, i + 1, j);
    }
  }

  lemma {:induction false} FirstIsFirst(s: seq<Byte>, i: nat)
    ensures CountFrom(s, i) > 0 <==> FirstFrom(s, i).Some?
    ensures FirstFrom(s, i).Some? ==>
      var f := FirstFrom(s, i).value;
      && i <= f && LiteralAt(s, f) && CountFrom(s, i) == 1 + CountFrom(s, f + LITERAL)
      && forall j :: i <= j < f ==> !LiteralAt(s, j)
    decreases |s| - i
  {
    hide LiteralAt;
    if i + LITERAL <= |s| && !LiteralAt(s, i) {
      FirstIsFirst(s, i + 1);
    }
  }

  /** The literal ends in its only NUL, so two occurrences cannot overlap. */
  lemma NoOverlap(s: seq<Byte>, i: nat, j: nat)
    requires LiteralAt(s, i) && LiteralAt(s, j) && i < j
    ensures i + LITERAL <= j
  {
    LiteralByte(s, i, LITERAL - 1);
    if j < i + LITERAL {
      LiteralByte(s, j, i + LITERAL - 1 - j);
    }
  }

  lemma LiteralByte(s: seq<Byte>, i: nat, n: nat)
    requires LiteralAt(s, i) && n < LITERAL
    ensures s[i + n] == 0 <==> n == LITERAL - 1
  {
    assert s[i..i + LITERAL][n] == TRANSITION_SOURCE[n];
  }

  /**
   * Patching succeeds exactly when one position holds the literal. The patched binary has the same size,
   * agrees with the original outside those 17 bytes, and holds the descriptor path inside them.
   */
  lemma PatchMeaning(init: seq<Byte>)
    ensures PatchedFirstStage(init).Some? <==>
      exists i: nat :: LiteralAt(init, i) && forall j: nat :: LiteralAt(init, j) ==> j == i
    ensures forall i: nat :: PatchedFirstStage(init).Some? && LiteralAt(init, i) ==>
      var r := PatchedFirstStage(init).value;
      && |r| == |init|
      && r[i..i + 17] == Ascii("/proc/self/fd/99") + [0] && init[i..i + 17] == Ascii("/system/bin/init") + [0]
      && forall k :: 0 <= k < |init| && !(i <= k < i + 17) ==> r[k] == init[k]
  {
    hide CountFrom, FirstFrom, LiteralAt;
    FirstIsFirst(init, 0);
    if PatchedFirstStage(init).Some? {
      var f := FirstFrom(init, 0).value;
      forall j: nat | LiteralAt(init, j)
        ensures j == f
      {
        OnlyFirst(init, f, j);
      }
      FirstInside(init, f);
      PatchedAt(init, f);
    }
    if i: nat :| LiteralAt(init, i) && forall j: nat :: LiteralAt(init, j) ==> j == i {
      OneCounted(init, i);
      FirstInside(init, FirstFrom(init, 0).value);
    }
  }

  /** A single counted match is the only position of the literal. */
  lemma OnlyFirst(init: seq<Byte>, f: nat, j: nat)
    requires CountFrom(init, 0) == 1 && FirstFrom(init, 0) == Some(f) && LiteralAt(init, j)
    ensures j == f
  {
    hide LiteralAt;
    FirstIsFirst(init, 0);
    if f < j {
      NoOverlap(init, f, j);
      NoneCounted(init, f + LITERAL, j);
    }
  }

  lemma OneCounted(init: seq<Byte>, i: nat)
    requires LiteralAt(init, i) && forall j: nat :: LiteralAt(init, j) ==> j == i
    ensures CountFrom(init, 0) == 1 && FirstFrom(init, 0) == Some(i)
  {
    hide CountFrom, FirstFrom, LiteralAt;
    FirstIsFirst(init, 0);
    if CountFrom(init, 0) == 0 {
      NoneCounted(init, 0, i);
    } else {
      FirstIsFirst(init, i + LITERAL);
    }
  }

  lemma FirstInside(init: seq<Byte>, f: nat)
    requires LiteralAt(init, f)
    ensures f + LITERAL <= |init| && init[f..f + LITERAL] == Ascii("/system/bin/init") + [0]
  {}

  lemma PatchedAt(init: seq<Byte>, f: nat)
    requires f + LITERAL <= |init|
    ensures
      var r := init[..f] + TRANSITION_TARGET + init[f + LITERAL..];
      && |r| == |init| && r[f..f + LITERAL] == TRANSITION_TARGET
      && forall k :: 0 <= k < |init| && !(f <= k < f + LITERAL) ==> r[k] == init[k]
  {
    assert |TRANSITION_TARGET| == LITERAL;
    hide Ascii;
  }

  /** The loop-free count and replace of the source, as a scan. */
  method PatchFirstStage(init: seq<Byte>) returns (r: Option<seq<Byte>>)
    ensures r == PatchedFirstStage(init)
  {
    var count, first, i := 0, 0, 0;
    while i + LITERAL <= |init|
      invariant 0 <= i
      invariant CountFrom(init, 0) == count + CountFrom(init, i)
      invariant count == 0 ==> FirstFrom(init, 0) == FirstFrom(init, i)
      invariant count > 0 ==> FirstFrom(init, 0) == Some(first) && first + LITERAL <= |init|
      decreases |init| - i
    {
      if init[i..i + LITERAL] == TRANSITION_SOURCE {
        if count == 0 {
          first := i;
        }
        count := count + 1;
        i := i + LITERAL;
      } else {
        i := i + 1;
      }
    }
    r := if count == 1 then Some(init[..first] + TRANSITION_TARGET + init[first + LITERAL..]) else None;
  }

  // ---- the surgery ----

  function StripSlashes(name: seq<Byte>): seq<Byte> {
    if |name| > 0 && name[0] == 0x2f then StripSlashes(name[1..]) else name
  }

  predicate IsInit(e: Entry) {
    StripSlashes(e.name) == INIT
  }

  predicate OneInit(es: seq<Entry>, k: nat) {
    k < |es| && IsInit(es[k]) && forall j :: 0 <= j < |es| && IsInit(es[j]) ==> j == k
  }

  function MaxInode(es: seq<Entry>): int
    requires es != []
  {
    if |es| == 1 then es[0].meta.ino
    else
      var rest := MaxInode(es[1..]);
      if es[0].meta.ino > rest then es[0].meta.ino else rest
  }

  predicate Named(es: seq<Entry>, name: seq<Byte>) {
    exists k :: 0 <= k < |es| && es[k].name == name
  }

  function DispatcherEntry(init: Entry, dispatcher: seq<Byte>): Entry {
    init.(data := dispatcher)
  }

  function FirstStageEntry(init: Entry, inode: int, patched: seq<Byte>): Entry {
    init.(name := FIRST_STAGE_INIT_NAME, meta := init.meta.(ino := inode), data := patched)
  }

  /** The composed archive, given where /init stands; None for each refusal. */
  function Compose(canonical: Archive, k: nat, dispatcher: seq<Byte>): Option<Archive>
    requires OneInit(canonical.entries, k)
  {
    var es := canonical.entries;
    var patched := PatchedFirstStage(es[k].data);
    if patched.None? || Named(es, FIRST_STAGE_INIT_NAME) then None
    else Some(Archive(es[..k] + [DispatcherEntry(es[k], dispatcher),
                                 FirstStageEntry(es[k], MaxInode(es) + 1, patched.value)] + es[k + 1..],
                      canonical.trailing))
  }

  /** The rebuild loop: every entry in order, /init replaced and followed by the addition. */
  method Rebuild(es: seq<Entry>, k: nat, dispatcher: Entry, addition: Entry) returns (modified: seq<Entry>)
    requires k < |es|
    ensures modified == es[..k] + [dispatcher, addition] + es[k + 1..]
  {
    modified := [];
    var index := 0;
    while index < |es|
      invariant 0 <= index <= |es|
      invariant modified == if index <= k then es[..index] else es[..k] + [dispatcher, addition] + es[k + 1..index]
    {
      if index == k {
        modified := modified + [dispatcher] + [addition];
        assert es[k + 1..k + 1] == [];
      } else {
        modified := modified + [es[index]];
        assert index > k ==> es[k + 1..index] + [es[index]] == es[k + 1..index + 1];
      }
      index := index + 1;
    }
    assert es[k + 1..|es|] == es[k + 1..];
  }

  // ---- the validator ----

  predicate StandsAt(s: seq<Byte>, part: seq<Byte>, i: nat) {
    i + |part| <= |s| && s[i..i + |part|] == part
  }

  predicate Contains(s: seq<Byte>, part: seq<Byte>) {
    exists i: nat :: i <= |s| && StandsAt(s, part, i)
  }

  /** An AArch64 ELF with the policy markers and a valid runtime bundle at its end. */
  predicate GoodDispatcher(d: seq<Byte>) {
    && |d| >= 20 && d[..4] == ELF_MAGIC && FromLE(d[18..20]) == 183
    && (forall m :: 0 <= m < |MARKERS| ==> Contains(d, MARKERS[m]))
    && Bundle.Validate(d).Some?
  }

  /** Entries the validator sets aside before comparing with the canonical population. */
  predicate SetAside(e: Entry) {
    || IsInit(e) || e.name == ORIGINAL_INIT_NAME || e.name == FIRST_STAGE_INIT_NAME
    || Bundle.StartsWith(e.name, RETAINED_PREFIX)
  }

  function Kept(es: seq<Entry>): seq<Entry> {
    if es == [] then [] else (if SetAside(es[0]) then [] else [es[0]]) + Kept(es[1..])
  }

  function WithName(es: seq<Entry>, name: seq<Byte>): seq<Entry> {
    if es == [] then [] else (if es[0].name == name then [es[0]] else []) + WithName(es[1..], name)
  }

  /** Acceptance of a candidate whose one /init stands at `c`, against a canonical archive with /init at `k`. */
  predicate Accepts(canonical: Archive, k: nat, candidate: Archive, c: nat)
    requires OneInit(canonical.entries, k) && OneInit(candidate.entries, c)
  {
    var init, mine := canonical.entries[k], candidate.entries[c];
    var stages := WithName(candidate.entries, FIRST_STAGE_INIT_NAME);
    && GoodDispatcher(mine.data)
    && PatchedFirstStage(init.data).Some? && |stages| == 1 && stages[0].data == PatchedFirstStage(init.data).value
    && Kept(candidate.entries) == canonical.entries[..k] + canonical.entries[k + 1..]
    && mine.(data := init.data) == init
    && candidate.trailing == canonical.trailing
    && NoneRetained(candidate.entries)
  }

  predicate NoneRetained(es: seq<Entry>) {
    forall j :: 0 <= j < |es| ==> !Bundle.StartsWith(es[j].name, RETAINED_PREFIX)
  }

  // ---- what acceptance conserves ----

  lemma {:induction false} KeptAppend(a: seq<Entry>, b: seq<Entry>)
    ensures Kept(a + b) == Kept(a) + Kept(b)
  {
    hide SetAside;
    if a == [] {
      assert a + b == b;
    } else {
      assert (a + b)[1..] == a[1..] + b;
      KeptAppend(a[1..], b);
    }
  }

  lemma {:induction false} WithNameAppend(a: seq<Entry>, b: seq<Entry>, name: seq<Byte>)
    ensures WithName(a + b, name) == WithName(a, name) + WithName(b, name)
  {
    if a == [] {
      assert a + b == b;
    } else {
      assert (a + b)[1..] == a[1..] + b;
      WithNameAppend(a[1..], b, name);
      var first := if a[0].name == name then [a[0]] else [];
      assert first + (WithName(a[1..], name) + WithName(b, name)) == (first + WithName(a[1..], name))
        + WithName(b, name);
    }
  }

  /** Nothing is set aside exactly when filtering keeps the length; then it keeps everything. */
  lemma {:induction false} KeptAll(es: seq<Entry>)
    ensures |Kept(es)| <= |es|
    ensures |Kept(es)| == |es| <==> forall j :: 0 <= j < |es| ==> !SetAside(es[j])
    ensures |Kept(es)| == |es| ==> Kept(es) == es
  {
    hide SetAside;
    if es != [] {
      KeptAll(es[1..]);
      if |Kept(es)| == |es| {
        assert Kept(es) == [es[0]] + es[1..];
        forall j | 0 <= j < |es|
          ensures !SetAside(es[j])
        {
          assert j > 0 ==> es[j] == es[1..][j - 1];
        }
      }
    }
  }

  lemma {:induction false} WithNameNone(es: seq<Entry>, name: seq<Byte>)
    ensures WithName(es, name) == [] <==> !Named(es, name)
  {
    if es != [] {
      WithNameNone(es[1..], name);
      if Named(es[1..], name) {
        var k :| 0 <= k < |es| - 1 && es[1..][k].name == name;
        assert es[k + 1].name == name;
      }
      if Named(es, name) && es[0].name != name {
        var k :| 0 <= k < |es| && es[k].name == name;
        assert es[1..][k - 1].name == name;
      }
    }
  }

  lemma {:induction false} InitCount(es: seq<Entry>)
    requires NoneRetained(es)
    ensures |es| == |Kept(es)| + |WithName(es, FIRST_STAGE_INIT_NAME)| + |WithName(es, ORIGINAL_INIT_NAME)| + Inits(es)
  {
    hide StripSlashes, Bundle.StartsWith;
    if es != [] {
      NamesDiffer(es[0]);
      assert forall j :: 0 <= j < |es[1..]| ==> es[1..][j] == es[j + 1];
      InitCount(es[1..]);
    }
  }

  function Inits(es: seq<Entry>): nat {
    if es == [] then 0 else (if IsInit(es[0]) then 1 else 0) + Inits(es[1..])
  }

  lemma {:induction false} OneInitCounts(es: seq<Entry>, k: nat)
    requires OneInit(es, k)
    ensures Inits(es) == 1
  {
    hide IsInit;
    if k == 0 {
      NoInits(es[1..]);
    } else {
      assert es[1..][k - 1] == es[k];
      OneInitCounts(es[1..], k - 1);
    }
  }

  lemma {:induction false} NoInits(es: seq<Entry>)
    requires forall j :: 0 <= j < |es| ==> !IsInit(es[j])
    ensures Inits(es) == 0
  {
    hide IsInit;
    if es != [] {
      NoInits(es[1..]);
    }
  }

  lemma NamesDiffer(e: Entry)
    ensures e.name == FIRST_STAGE_INIT_NAME ==> !IsInit(e) && e.name != ORIGINAL_INIT_NAME && !e.IsTrailer()
    ensures e.name == ORIGINAL_INIT_NAME ==> !IsInit(e) && e.name != FIRST_STAGE_INIT_NAME
    ensures IsInit(e) ==> !e.IsTrailer()
  {
    assert FIRST_STAGE_INIT_NAME[0] == 0x69 && ORIGINAL_INIT_NAME[0] == 0x69 && TRAILER[0] == 0x54;
    assert |FIRST_STAGE_INIT_NAME| == 36 && |ORIGINAL_INIT_NAME| == 33;
  }

  /** `es` is `a` and `b`, each in its order, shuffled together. */
  ghost predicate Interleaves(es: seq<Entry>, a: seq<Entry>, b: seq<Entry>)
    decreases |es|
  {
    if es == [] then a == [] && b == []
    else
      || (a != [] && es[0] == a[0] && Interleaves(es[1..], a[1..], b))
      || (b != [] && es[0] == b[0] && Interleaves(es[1..], a, b[1..]))
  }

  /** The entries the validator sets aside. */
  function Aside(es: seq<Entry>): seq<Entry> {
    if es == [] then [] else (if SetAside(es[0]) then [es[0]] else []) + Aside(es[1..])
  }

  lemma {:induction false} KeptAside(es: seq<Entry>)
    ensures Interleaves(es, Kept(es), Aside(es))
    ensures |Kept(es)| + |Aside(es)| == |es|
    ensures forall e :: e in Aside(es) ==> e in es && SetAside(e)
  {
    hide SetAside;
    if es != [] {
      KeptAside(es[1..]);
      assert Kept(es) == (if SetAside(es[0]) then [] else [es[0]]) + Kept(es[1..]);
      assert SetAside(es[0]) ==> Aside(es)[1..] == Aside(es[1..]) && Kept(es) == Kept(es[1..]);
      assert !SetAside(es[0]) ==> Kept(es)[1..] == Kept(es[1..]) && Aside(es) == Aside(es[1..]);
    }
  }

  /**
   * An accepted candidate is the canonical archive with one entry replaced and added: its entries are the
   * canonical ones but /init, in order, shuffled with its own /init, one patched first stage and entries named
   * after the original init; /init differs from the canonical one in content alone, the first stage in the
   * literal alone, and the trailing padding is the same.
   */
  lemma AcceptedConserves(canonical: Archive, k: nat, candidate: Archive, c: nat)
    requires OneInit(canonical.entries, k) && OneInit(candidate.entries, c) && Accepts(canonical, k, candidate, c)
    ensures Interleaves(candidate.entries, canonical.entries[..k] + canonical.entries[k + 1..],
                        Aside(candidate.entries))
    ensures |Aside(candidate.entries)| == 2 + |WithName(candidate.entries, ORIGINAL_INIT_NAME)|
    ensures forall e :: e in Aside(candidate.entries) ==>
      e == candidate.entries[c] || e.name == FIRST_STAGE_INIT_NAME || e.name == ORIGINAL_INIT_NAME
    ensures
      var init, stage := canonical.entries[k].data, WithName(candidate.entries, FIRST_STAGE_INIT_NAME)[0].data;
      && |stage| == |init|
      && exists i: nat :: LiteralAt(init, i) && stage[i..i + LITERAL] == TRANSITION_TARGET
           && forall n :: 0 <= n < |init| && !(i <= n < i + LITERAL) ==> stage[n] == init[n]
    ensures candidate.entries[c].meta == canonical.entries[k].meta
      && candidate.entries[c].magic == canonical.entries[k].magic
    ensures candidate.trailing == canonical.trailing
  {
    hide GoodDispatcher, Kept, Aside, WithName, Interleaves, IsInit, Bundle.StartsWith, CountFrom, FirstFrom;
    InitCount(candidate.entries);
    OneInitCounts(candidate.entries, c);
    KeptAside(candidate.entries);
    var init := canonical.entries[k].data;
    PatchMeaning(init);
    var i: nat :| LiteralAt(init, i) && forall j: nat :: LiteralAt(init, j) ==> j == i;
    hide PatchedFirstStage;
    assert LiteralAt(init, i);
  }

  // ---- the composed archive validates ----

  /** No canonical name that the validator would set aside or forbid. */
  predicate NoReserved(es: seq<Entry>) {
    forall j :: 0 <= j < |es| ==>
      && es[j].name != Ascii("init.treeforge-bootstrap-original")
      && !Bundle.StartsWith(es[j].name, Ascii("treeforge-bootstrap-retained/"))
  }

  predicate AllUnsigned32(es: seq<Entry>) {
    forall j :: 0 <= j < |es| ==> Unsigned32(es[j])
  }

  lemma {:induction false} MaxInodeIs(es: seq<Entry>)
    requires es != []
    ensures forall j :: 0 <= j < |es| ==> es[j].meta.ino <= MaxInode(es)
    ensures exists j :: 0 <= j < |es| && es[j].meta.ino == MaxInode(es)
  {
    if |es| == 1 {
      assert es[0].meta.ino == MaxInode(es);
    } else {
      MaxInodeIs(es[1..]);
      var j :| 0 <= j < |es| - 1 && es[1..][j].meta.ino == MaxInode(es[1..]);
      assert es[j + 1].meta.ino == MaxInode(es[1..]);
      forall j | 0 <= j < |es|
        ensures es[j].meta.ino <= MaxInode(es)
      {
        assert j > 0 ==> es[j] == es[1..][j - 1];
      }
    }
  }

  /**
   * What is composed: the canonical entries in their order, /init with the dispatcher for its data, and behind it the
   * first stage: /init's magic and metadata under its own name, with the lowest inode above all canonical ones and
   * the patched data. Composition is refused exactly when the literal does not stand at one position, or an entry
   * has the first stage's name already.
   */
  lemma ComposedParts(canonical: Archive, k: nat, dispatcher: seq<Byte>)
    requires OneInit(canonical.entries, k)
    ensures Compose(canonical, k, dispatcher).Some? <==>
      && (exists i: nat :: LiteralAt(canonical.entries[k].data, i)
                           && forall j: nat :: LiteralAt(canonical.entries[k].data, j) ==> j == i)
      && forall j :: 0 <= j < |canonical.entries| ==>
           canonical.entries[j].name != Ascii("init.treeforge-bootstrap-first-stage")
    ensures Compose(canonical, k, dispatcher).Some? ==>
      var es, rs := canonical.entries, Compose(canonical, k, dispatcher).value.entries;
      && Compose(canonical, k, dispatcher).value.trailing == canonical.trailing
      && |rs| == |es| + 1
      && (forall j :: 0 <= j < |es| && j != k ==> rs[if j < k then j else j + 1] == es[j])
      && rs[k].data == dispatcher
      && rs[k].magic == es[k].magic && rs[k].name == es[k].name && rs[k].meta == es[k].meta
      && var stage := rs[k + 1];
      && stage.name == Ascii("init.treeforge-bootstrap-first-stage") && stage.magic == es[k].magic
      && stage.meta.(ino := es[k].meta.ino) == es[k].meta
      && PatchedFirstStage(es[k].data) == Some(stage.data)
      && (forall j :: 0 <= j < |es| ==> es[j].meta.ino < stage.meta.ino)
      && exists j :: 0 <= j < |es| && es[j].meta.ino + 1 == stage.meta.ino
  {
    hide PatchedFirstStage, IsInit, LiteralAt, MaxInode;
    PatchMeaning(canonical.entries[k].data);
    MaxInodeIs(canonical.entries);
  }

  /**
   * Written and read back, the first stage still has an inode of its own unless the highest canonical one is 2^32 - 1
   * and another one is 0.
   */
  lemma StageInode(canonical: Archive, k: nat, dispatcher: seq<Byte>)
    requires OneInit(canonical.entries, k) && Compose(canonical, k, dispatcher).Some?
    requires AllUnsigned32(canonical.entries)
    ensures
      var es := canonical.entries;
      var written := MaskArchive(Compose(canonical, k, dispatcher).value).entries[k + 1].meta.ino;
      (exists j :: 0 <= j < |es| && es[j].meta.ino == written) <==>
        (exists j :: 0 <= j < |es| && es[j].meta.ino == 0xffff_ffff) && exists j :: 0 <= j < |es| && es[j].meta.ino == 0
  {
    hide PatchedFirstStage, IsInit, LiteralAt, MaxInode, Named;
    ComposedParts(canonical, k, dispatcher);
    var es := canonical.entries;
    var stage := Compose(canonical, k, dispatcher).value.entries[k + 1];
    forall j | 0 <= j < |es|
      ensures 0 <= es[j].meta.ino < TWO32
    {
      assert Unsigned32(es[j]);
    }
    var top :| 0 <= top < |es| && es[top].meta.ino + 1 == stage.meta.ino;
    assert 0 < stage.meta.ino <= TWO32;
    assert MaskEntry(stage).meta.ino == if stage.meta.ino == TWO32 then 0 else stage.meta.ino;
  }

  lemma {:induction false} TrailerCountAppend(a: seq<Entry>, b: seq<Entry>)
    ensures TrailerCount(a + b) == TrailerCount(a) + TrailerCount(b)
  {
    if a == [] {
      assert a + b == b;
    } else {
      assert (a + b)[1..] == a[1..] + b;
      TrailerCountAppend(a[1..], b);
    }
  }

  lemma SplitAt(es: seq<Entry>, k: nat)
    requires k < |es|
    ensures es == es[..k] + ([es[k]] + es[k + 1..])
  {}

  /** Replacing an ordinary entry by two ordinary ones keeps the one final trailer. */
  lemma PopulationKept(a: seq<Entry>, e: Entry, b: seq<Entry>, d: Entry, f: Entry)
    requires Population(a + ([e] + b)) && !e.IsTrailer() && !d.IsTrailer() && !f.IsTrailer()
    ensures Population(a + ([d, f] + b))
  {
    TrailerCountAppend(a, [e] + b);
    TrailerCountAppend([e], b);
    TrailerCountAppend(a, [d, f] + b);
    TrailerCountAppend([d, f], b);
    TwoOrdinary(d, f);
    OneOrdinary(e);
    hide TrailerCount;
    var es, rs := a + ([e] + b), a + ([d, f] + b);
    assert es[|a|] == e;
    assert |b| > 0;
    assert rs[|rs| - 1] == b[|b| - 1] == es[|es| - 1];
  }

  /** The surgery keeps the archive serializable. */
  lemma ComposedSerializes(canonical: Archive, k: nat, dispatcher: seq<Byte>, result: Archive)
    requires OneInit(canonical.entries, k) && Compose(canonical, k, dispatcher) == Some(result)
    requires Newc.Valid(canonical) && KnownMagics(canonical.entries)
    ensures SerializeArchive(result).Some?
  {
    hide AllZero, PatchedFirstStage, IsInit, EmitAll, MaxInode, Named, KnownMagic, TrailerCount;
    var es := canonical.entries;
    var a, b := es[..k], es[k + 1..];
    var d, f := result.entries[k], result.entries[k + 1];
    assert result.entries == a + ([d, f] + b);
    SplitAt(es, k);
    NamesDiffer(es[k]);
    NamesDiffer(f);
    PopulationKept(a, es[k], b, d, f);
    assert KnownMagic(es[k]);
    SameMagic(es[k], d);
    SameMagic(es[k], f);
    forall i | 0 <= i < |result.entries|
      ensures KnownMagic(result.entries[i])
    {
      if i < k {
        assert result.entries[i] == es[i];
      } else if i > k + 1 {
        assert result.entries[i] == es[i - 1];
      }
    }
  }

  lemma SameMagic(e: Entry, f: Entry)
    requires KnownMagic(e) && e.magic == f.magic
    ensures KnownMagic(f)
  {}

  lemma OneOrdinary(e: Entry)
    requires !e.IsTrailer()
    ensures TrailerCount([e]) == 0
  {
    assert [e][1..] == [];
  }

  lemma TwoOrdinary(d: Entry, f: Entry)
    requires !d.IsTrailer() && !f.IsTrailer()
    ensures TrailerCount([d, f]) == 0
  {
    OneOrdinary(f);
    assert [d, f][1..] == [f];
  }

  lemma InitNotRetained(e: Entry)
    requires IsInit(e) || e.name == FIRST_STAGE_INIT_NAME
    ensures !Bundle.StartsWith(e.name, RETAINED_PREFIX)
  {
    if Bundle.StartsWith(e.name, RETAINED_PREFIX) {
      PrefixHead(e.name, RETAINED_PREFIX);
    }
  }

  lemma PrefixHead(s: seq<Byte>, prefix: seq<Byte>)
    requires Bundle.StartsWith(s, prefix) && |prefix| > 0
    ensures |s| > 0 && s[0] == prefix[0]
  {
    assert s[..|prefix|][0] == s[0];
  }

  /** The archive the validator reads back, in parts. */
  lemma MaskedParts(es: seq<Entry>, k: nat, d: Entry, f: Entry)
    requires k < |es|
    ensures MaskEntries(es[..k] + [d, f] + es[k + 1..])
         == MaskEntries(es[..k]) + ([MaskEntry(d), MaskEntry(f)] + MaskEntries(es[k + 1..]))
  {
    hide MaskEntry;
  }

  /** Entries other than /init and the first stage. */
  predicate Plain(es: seq<Entry>) {
    forall j :: 0 <= j < |es| ==> !IsInit(es[j]) && es[j].name != FIRST_STAGE_INIT_NAME
  }

  /** Filtering the masked parts gives the canonical parts exactly when nothing is set aside and nothing is masked. */
  lemma KeptMasked(a: seq<Entry>, b: seq<Entry>)
    requires Plain(a) && Plain(b)
    ensures Kept(MaskEntries(a)) + Kept(MaskEntries(b)) == a + b <==>
      NoReserved(a) && NoReserved(b) && AllUnsigned32(a) && AllUnsigned32(b)
  {
    hide IsInit, Bundle.StartsWith, Kept;
    var ma, mb := MaskEntries(a), MaskEntries(b);
    KeptAll(ma);
    KeptAll(mb);
    SetAsideMasked(a);
    SetAsideMasked(b);
    if Kept(ma) + Kept(mb) == a + b {
      assert |Kept(ma)| == |a| && |Kept(mb)| == |b|;
      assert ma == (a + b)[..|a|] == a && mb == (a + b)[|a|..] == b;
    }
    if AllUnsigned32(a) && AllUnsigned32(b) {
      assert ma == a && mb == b;
    }
  }

  lemma SetAsideMasked(es: seq<Entry>)
    requires Plain(es)
    ensures (forall j :: 0 <= j < |es| ==> !SetAside(MaskEntries(es)[j])) <==> NoReserved(es)
  {
    hide Bundle.StartsWith;
    forall j | 0 <= j < |es|
      ensures SetAside(MaskEntries(es)[j]) <==>
        es[j].name == ORIGINAL_INIT_NAME || Bundle.StartsWith(es[j].name, RETAINED_PREFIX)
    {
      assert MaskEntries(es)[j].name == es[j].name;
    }
  }

  /**
   * Composing and validating agree: the composed archive can always be written, reading it back gives it (with
   * its metadata reduced to 32 bits) exactly when every payload is shorter than 4 GiB, and the validator accepts what
   * is read exactly when the dispatcher is good, no canonical name is reserved, and no canonical field was out of
   * the unsigned 32-bit range.
   */
  lemma ComposedValidates(bytes: seq<Byte>, canonical: Archive, k: nat, dispatcher: seq<Byte>, result: Archive)
    requires ParseArchive(bytes) == Accepted(canonical) && OneInit(canonical.entries, k)
    requires Compose(canonical, k, dispatcher) == Some(result)
    ensures SerializeArchive(result).Some?
    ensures ParseArchive(SerializeArchive(result).value) == Accepted(MaskArchive(result)) <==> AllFit(result.entries)
    ensures AllFit(result.entries) <==>
      |dispatcher| < TWO32 && forall i :: 0 <= i < |canonical.entries| ==> |canonical.entries[i].data| < TWO32
    ensures |bytes| < TWO32 && |dispatcher| < TWO32 ==> AllFit(result.entries)
    ensures OneInit(MaskArchive(result).entries, k)
    ensures Accepts(canonical, k, MaskArchive(result), k) <==>
      GoodDispatcher(dispatcher) && NoReserved(canonical.entries) && AllUnsigned32(canonical.entries)
  {
    hide RunArchive, AllZero, GoodDispatcher, IsInit, EmitAll, KnownMagic, SizesFit, TrailerCount, Bundle.StartsWith,
         MaxInode, Kept, WithName, PatchedFirstStage, NoReserved, AllUnsigned32, Accepts, Unsigned32, ParseArchive,
         AllFit;
    ParsedFacts(bytes, canonical);
    ParsedValid(bytes, canonical);
    CanonicalFacts(canonical);
    ComposedSerializes(canonical, k, dispatcher, result);
    ComposedFits(canonical, k, dispatcher, result);
    ArchiveRoundTrip(result);
    ComposedInit(canonical, k, dispatcher, result);
    ComposedAccepts(canonical, k, dispatcher, result);
  }

  lemma ParsedValid(bytes: seq<Byte>, canonical: Archive)
    requires ParseArchive(bytes) == Accepted(canonical)
    ensures Newc.Valid(canonical)
  {
    hide RunArchive, AllZero, TrailerCount;
  }

  lemma CanonicalFacts(canonical: Archive)
    requires forall i :: 0 <= i < |canonical.entries| ==> WellParsed(canonical.entries[i])
    ensures KnownMagics(canonical.entries)
    ensures forall i :: 0 <= i < |canonical.entries| ==> |canonical.entries[i].name| + 1 < TWO32
  {
    hide KnownMagic, Unsigned32, NonNegative;
    forall i | 0 <= i < |canonical.entries|
      ensures KnownMagic(canonical.entries[i]) && |canonical.entries[i].name| + 1 < TWO32
    {
      assert WellParsed(canonical.entries[i]);
    }
  }

  lemma ComposedFits(canonical: Archive, k: nat, dispatcher: seq<Byte>, result: Archive)
    requires OneInit(canonical.entries, k) && Compose(canonical, k, dispatcher) == Some(result)
    requires forall i :: 0 <= i < |canonical.entries| ==> |canonical.entries[i].name| + 1 < TWO32
    ensures AllFit(result.entries) <==>
      |dispatcher| < TWO32 && forall i :: 0 <= i < |canonical.entries| ==> |canonical.entries[i].data| < TWO32
  {
    hide PatchedFirstStage, IsInit, Named, MaxInode;
    var es, rs := canonical.entries, result.entries;
    PatchSize(es[k].data);
    assert forall i :: 0 <= i < k ==> rs[i] == es[i];
    assert forall i :: k < i < |es| ==> rs[i + 1] == es[i];
    assert rs[k].data == dispatcher && |rs[k + 1].data| == |es[k].data|;
    if AllFit(rs) {
      assert SizesFit(rs[k]) && SizesFit(rs[k + 1]);
      forall i | 0 <= i < |es|
        ensures |es[i].data| < TWO32
      {
        assert i < k ==> SizesFit(rs[i]);
        assert i > k ==> SizesFit(rs[i + 1]);
      }
    } else {
      var i :| 0 <= i < |rs| && !SizesFit(rs[i]);
      assert i > k + 1 ==> rs[i] == es[i - 1];
    }
  }

  lemma PatchSize(init: seq<Byte>)
    requires PatchedFirstStage(init).Some?
    ensures |PatchedFirstStage(init).value| == |init|
  {
    hide LiteralAt, CountFrom, FirstFrom;
    PatchMeaning(init);
  }

  /** Masking keeps names, so /init still stands where it stood. */
  lemma ComposedInit(canonical: Archive, k: nat, dispatcher: seq<Byte>, result: Archive)
    requires OneInit(canonical.entries, k) && Compose(canonical, k, dispatcher) == Some(result)
    ensures OneInit(MaskArchive(result).entries, k)
  {
    hide PatchedFirstStage, StripSlashes, Named, MaxInode;
    var es, rs, ms := canonical.entries, result.entries, MaskArchive(result).entries;
    NamesDiffer(rs[k + 1]);
    forall j | 0 <= j < |ms|
      ensures IsInit(ms[j]) <==> j == k
    {
      assert ms[j].name == rs[j].name;
      assert j < k ==> rs[j] == es[j];
      assert j > k + 1 ==> rs[j] == es[j - 1];
    }
  }

  lemma ComposedAccepts(canonical: Archive, k: nat, dispatcher: seq<Byte>, result: Archive)
    requires OneInit(canonical.entries, k) && Compose(canonical, k, dispatcher) == Some(result)
    requires OneInit(MaskArchive(result).entries, k)
    ensures Accepts(canonical, k, MaskArchive(result), k) <==>
      GoodDispatcher(dispatcher) && NoReserved(canonical.entries) && AllUnsigned32(canonical.entries)
  {
    hide GoodDispatcher, IsInit, Bundle.StartsWith, MaxInode, Kept, WithName, PatchedFirstStage, Unsigned32,
         NoReserved, AllUnsigned32;
    var es, ms := canonical.entries, MaskArchive(result).entries;
    var init, patched := es[k], PatchedFirstStage(es[k].data).value;
    var d, f := MaskEntry(DispatcherEntry(init, dispatcher)),
      MaskEntry(FirstStageEntry(init, MaxInode(es) + 1, patched));
    var a, b := es[..k], es[k + 1..];
    MaskedParts(es, k, DispatcherEntry(init, dispatcher), FirstStageEntry(init, MaxInode(es) + 1, patched));
    assert ms == MaskEntries(a) + ([d, f] + MaskEntries(b));
    OthersPlain(es, k);
    KeptMasked(a, b);
    KeptComposed(a, b, d, f);
    StagesComposed(a, b, d, f);
    RetainedComposed(a, b, d, f);
    PartsOf(es, k);
    DispatcherMeta(init, dispatcher);
    assert ms[k] == d;
  }

  lemma OthersPlain(es: seq<Entry>, k: nat)
    requires OneInit(es, k) && !Named(es, FIRST_STAGE_INIT_NAME)
    ensures Plain(es[..k]) && Plain(es[k + 1..])
  {
    hide IsInit;
    var a, b := es[..k], es[k + 1..];
    forall j | 0 <= j < |a|
      ensures !IsInit(a[j]) && a[j].name != FIRST_STAGE_INIT_NAME
    {
      assert a[j] == es[j];
    }
    forall j | 0 <= j < |b|
      ensures !IsInit(b[j]) && b[j].name != FIRST_STAGE_INIT_NAME
    {
      assert b[j] == es[j + k + 1];
    }
  }

  lemma KeptComposed(a: seq<Entry>, b: seq<Entry>, d: Entry, f: Entry)
    requires SetAside(d) && SetAside(f)
    ensures Kept(MaskEntries(a) + ([d, f] + MaskEntries(b))) == Kept(MaskEntries(a)) + Kept(MaskEntries(b))
  {
    hide SetAside, MaskEntries, Kept;
    KeptAppend(MaskEntries(a), [d, f] + MaskEntries(b));
    KeptAppend([d, f], MaskEntries(b));
    KeptTwo(d, f);
  }

  lemma KeptTwo(d: Entry, f: Entry)
    requires SetAside(d) && SetAside(f)
    ensures Kept([d, f]) == []
  {
    hide SetAside;
    assert [d, f][1..] == [f] && [f][1..] == [];
    assert Kept([f]) == [];
  }

  lemma StagesComposed(a: seq<Entry>, b: seq<Entry>, d: Entry, f: Entry)
    requires d.name != FIRST_STAGE_INIT_NAME && f.name == FIRST_STAGE_INIT_NAME
    requires Plain(a) && Plain(b)
    ensures WithName(MaskEntries(a) + ([d, f] + MaskEntries(b)), FIRST_STAGE_INIT_NAME) == [f]
  {
    var ma, mb := MaskEntries(a), MaskEntries(b);
    WithNameAppend(ma, [d, f] + mb, FIRST_STAGE_INIT_NAME);
    WithNameAppend([d, f], mb, FIRST_STAGE_INIT_NAME);
    WithNameNone(ma, FIRST_STAGE_INIT_NAME);
    WithNameNone(mb, FIRST_STAGE_INIT_NAME);
    assert [d, f][1..] == [f] && [f][1..] == [];
    assert WithName([f], FIRST_STAGE_INIT_NAME) == [f];
    assert WithName([d, f], FIRST_STAGE_INIT_NAME) == [f];
  }

  lemma RetainedComposed(a: seq<Entry>, b: seq<Entry>, d: Entry, f: Entry)
    requires IsInit(d) && f.name == FIRST_STAGE_INIT_NAME
    ensures
      var ms := MaskEntries(a) + ([d, f] + MaskEntries(b));
      NoReserved(a) && NoReserved(b) ==> NoneRetained(ms)
  {
    hide IsInit, Bundle.StartsWith;
    InitNotRetained(d);
    InitNotRetained(f);
    var ms := MaskEntries(a) + ([d, f] + MaskEntries(b));
    if NoReserved(a) && NoReserved(b) {
      forall j | 0 <= j < |ms|
        ensures !Bundle.StartsWith(ms[j].name, RETAINED_PREFIX)
      {
        if j < |a| {
          assert ms[j].name == a[j].name;
        } else if j >= |a| + 2 {
          assert ms[j].name == b[j - |a| - 2].name;
        }
      }
    }
  }

  /** Conditions on the whole list are conditions on its parts; /init itself has no reserved name. */
  lemma PartsOf(es: seq<Entry>, k: nat)
    requires OneInit(es, k)
    ensures NoReserved(es) <==> NoReserved(es[..k]) && NoReserved(es[k + 1..])
    ensures AllUnsigned32(es) <==> AllUnsigned32(es[..k]) && AllUnsigned32(es[k + 1..]) && Unsigned32(es[k])
  {
    hide Bundle.StartsWith, Unsigned32, IsInit;
    InitNotRetained(es[k]);
    NamesDiffer(es[k]);
    var a, b := es[..k], es[k + 1..];
    forall j | 0 <= j < |es|
      ensures j < k ==> es[j] == a[j]
      ensures j > k ==> es[j] == b[j - k - 1]
    {}
  }

  lemma DispatcherMeta(init: Entry, dispatcher: seq<Byte>)
    ensures MaskEntry(DispatcherEntry(init, dispatcher)).(data := init.data) == init <==> Unsigned32(init)
  {}
}
