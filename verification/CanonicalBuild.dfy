/** From the staged runtime to the accepted ramdisk: encoding, composing, writing, reading back and validating. */
module CanonicalBuild {
  import opened ByteStrings
  import opened Wrappers
  import opened Newc
  import opened NewcParser
  import opened CanonicalInitramfs
  import Bundle

  function Slashes(n: nat): seq<Byte> {
    seq(n, _ => 0x2f)
  }

  /** The entry that counts as /init is named "init" behind any number of slashes. */
  lemma InitIff(e: Entry)
    ensures IsInit(e) <==> exists n: nat :: e.name == Slashes(n) + Ascii("init")
  {
    if IsInit(e) {
      var n := SlashesOf(e.name);
      assert e.name == Slashes(n) + Ascii("init");
    }
    if n: nat :| e.name == Slashes(n) + Ascii("init") {
      assert Ascii("init")[0] == 0x69;
      hide Ascii;
      StripIs(n, Ascii("init"));
    }
  }

  lemma {:induction false} SlashesOf(name: seq<Byte>) returns (n: nat)
    ensures name == Slashes(n) + StripSlashes(name)
  {
    n := 0;
    if |name| > 0 && name[0] == 0x2f {
      var more := SlashesOf(name[1..]);
      n := more + 1;
      assert Slashes(n) == [0x2f] + Slashes(more);
      assert name == [name[0]] + name[1..];
    }
  }

  lemma {:induction false} StripIs(n: nat, rest: seq<Byte>)
    requires |rest| > 0 && rest[0] != 0x2f
    ensures StripSlashes(Slashes(n) + rest) == rest
  {
    var s := Slashes(n) + rest;
    if n > 0 {
      assert s[1..] == Slashes(n - 1) + rest;
      StripIs(n - 1, rest);
    } else {
      assert s == rest;
    }
  }

  /** The text stands somewhere in the bytes. */
  predicate Has(s: seq<Byte>, part: seq<Byte>) {
    exists i :: 0 <= i <= |s| && part <= s[i..]
  }

  lemma HasIff(s: seq<Byte>, part: seq<Byte>)
    ensures Contains(s, part) <==> Has(s, part)
  {
    if i: nat :| i <= |s| && StandsAt(s, part, i) {
      assert s[i..][..|part|] == s[i..i + |part|];
    }
    if i :| 0 <= i <= |s| && part <= s[i..] {
      assert s[i..][..|part|] == s[i..i + |part|];
      assert StandsAt(s, part, i);
    }
  }

  /** A good dispatcher: an ELF file for machine 183, AArch64, with the three policy texts and a valid bundle. */
  lemma DispatcherIff(d: seq<Byte>)
    ensures GoodDispatcher(d) <==>
      && |d| >= 20 && d[0] == 0x7f && d[1] == 0x45 && d[2] == 0x4c && d[3] == 0x46 && d[18] == 183 && d[19] == 0
      && Has(d, Ascii("TREEFORGE_MENU_PROFILE_V1"))
      && Has(d, Ascii("/dev/treeforge-bootstrap-runtime/treeforge-bootstrap-adb-service"))
      && Has(d, Ascii("/dev/treeforge_bootstrap_fb"))
      && Bundle.Validate(d).Some?
  {
    hide Bundle.Validate, Has, Contains, Ascii;
    HasIff(d, Ascii("TREEFORGE_MENU_PROFILE_V1"));
    HasIff(d, Ascii("/dev/treeforge-bootstrap-runtime/treeforge-bootstrap-adb-service"));
    HasIff(d, Ascii("/dev/treeforge_bootstrap_fb"));
    assert (forall m :: 0 <= m < |MARKERS| ==> Contains(d, MARKERS[m])) <==>
      Contains(d, MARKERS[0]) && Contains(d, MARKERS[1]) && Contains(d, MARKERS[2]);
    if |d| >= 20 {
      MachineIs(d[18], d[19]);
      assert d[18..20] == [d[18], d[19]];
      assert d[..4] == [d[0], d[1], d[2], d[3]];
    }
  }

  lemma MachineIs(low: Byte, high: Byte)
    ensures FromLE([low, high]) == 183 <==> low == 183 && high == 0
  {
    assert [low, high][1..] == [high] && [high][1..] == [];
    assert FromLE([high]) == high;
    assert FromLE([low, high]) == low + 256 * high;
  }

  lemma HasLonger(a: seq<Byte>, s: seq<Byte>, b: seq<Byte>, part: seq<Byte>)
    requires Has(s, part)
    ensures Has(a + s + b, part)
  {
    var i :| 0 <= i <= |s| && part <= s[i..];
    var all := a + s + b;
    assert all[|a| + i..] == s[i..] + b;
  }

  /** Every path of a list stands in its encoding. */
  lemma {:induction false} PathStands(items: seq<Bundle.Item>, k: nat)
    requires Bundle.AllFit(items) && k < |items|
    ensures Has(Bundle.EncodeItems(items), items[k].path)
  {
    hide Bundle.EncodeItem, Has;
    var first, rest := Bundle.EncodeItem(items[0]), Bundle.EncodeItems(items[1..]);
    assert first + rest + [] == first + rest;
    assert [] + first + rest == first + rest;
    if k == 0 {
      OwnPath(items[0]);
      HasLonger([], first, rest, items[0].path);
    } else {
      PathStands(items[1..], k - 1);
      HasLonger(first, rest, [], items[k].path);
    }
  }

  lemma OwnPath(i: Bundle.Item)
    requires Bundle.WireFits(i)
    ensures Has(Bundle.EncodeItem(i), i.path)
  {
    Bundle.ItemLayout(i);
    var s := Bundle.EncodeItem(i);
    hide Bundle.EncodeItem;
    assert s[16..][..|i.path|] == s[16..16 + |i.path|];
  }

  /** A bundle names the ADB service, which is one of the policy texts. */
  lemma BundleHasService(rs: seq<Bundle.Retained>)
    requires Bundle.GoodRetained(rs) && Bundle.RuntimeBundle(rs).Some?
    ensures Has(Bundle.RuntimeBundle(rs).value,
                Ascii("/dev/treeforge-bootstrap-runtime/treeforge-bootstrap-adb-service"))
  {
    var service := Ascii("/dev/treeforge-bootstrap-runtime/treeforge-bootstrap-adb-service");
    SpelledTwice();
    hide Bundle.ToItem, Bundle.EncodeItems, Bundle.Body, Has, Ascii;
    assert Bundle.HasDestination(rs, service);
    var k :| 0 <= k < |rs| && rs[k].destination == service;
    var items := Bundle.ToItems(rs).value;
    assert Bundle.ToItem(rs[k]) == Some(items[k]);
    PathStands(items, k);
    EntriesStand(items, service);
  }

  lemma EntriesStand(items: seq<Bundle.Item>, part: seq<Byte>)
    requires Bundle.AllFit(items) && |items| < TWO32 && |Bundle.Body(items, Zeros(4))| < TWO64
    requires Has(Bundle.EncodeItems(items), part)
    ensures Has(Bundle.Packed(items, Zeros(4)), part)
  {
    hide Has, Bundle.EncodeItems, LE32, LE64, Ascii;
    var head := Bundle.HEAD_MAGIC + LE32(|items|) + Zeros(4);
    var end := Bundle.END_MAGIC + LE64(|Bundle.Body(items, Zeros(4))|);
    HasLonger(head, Bundle.EncodeItems(items), end, part);
    assert Bundle.Packed(items, Zeros(4)) == head + Bundle.EncodeItems(items) + end;
  }

  lemma SpelledTwice()
    ensures Ascii("/dev/treeforge-bootstrap-runtime/treeforge-bootstrap-adb-service") in Bundle.REQUIRED
  {
    var prefix, name := "/dev/treeforge-bootstrap-runtime/", "treeforge-bootstrap-adb-service";
    JoinedText(prefix, name);
    assert prefix + name == "/dev/treeforge-bootstrap-runtime/treeforge-bootstrap-adb-service";
    hide Ascii;
  }

  lemma JoinedText(a: string, b: string)
    ensures Ascii(a + b) == Ascii(a) + Ascii(b)
  {}

  /** What the compiler has to deliver in front of the bundle. */
  predicate GoodExecutable(elf: seq<Byte>) {
    && |elf| >= 20 && elf[0] == 0x7f && elf[1] == 0x45 && elf[2] == 0x4c && elf[3] == 0x46
    && elf[18] == 183 && elf[19] == 0
    && Has(elf, Ascii("TREEFORGE_MENU_PROFILE_V1")) && Has(elf, Ascii("/dev/treeforge_bootstrap_fb"))
  }

  lemma BundledIsGood(elf: seq<Byte>, rs: seq<Bundle.Retained>)
    requires GoodExecutable(elf) && Bundle.GoodRetained(rs) && Bundle.RuntimeBundle(rs).Some?
    ensures GoodDispatcher(elf + Bundle.RuntimeBundle(rs).value)
  {
    hide Bundle.GoodRetained, Bundle.RuntimeBundle, Bundle.Validate, Bundle.Becomes, Has, GoodDispatcher, Ascii;
    var bundle := Bundle.RuntimeBundle(rs).value;
    Bundle.EncodedValidates(elf, rs);
    BundleHasService(rs);
    assert [] + elf + bundle == elf + bundle;
    assert elf + bundle + [] == elf + bundle;
    HasLonger([], elf, bundle, Ascii("TREEFORGE_MENU_PROFILE_V1"));
    HasLonger([], elf, bundle, Ascii("/dev/treeforge_bootstrap_fb"));
    HasLonger(elf, bundle, [], Ascii("/dev/treeforge-bootstrap-runtime/treeforge-bootstrap-adb-service"));
    DispatcherIff(elf + bundle);
  }

  /**
   * The whole build: from a canonical ramdisk whose fields are unsigned 32-bit and whose names are not reserved, an
   * executable with the policy texts and a good list of retained files, what is composed can be written, reads back,
   * and is accepted, as long as ramdisk and dispatcher stay below 4 GiB.
   */
  lemma BuiltValidates(bytes: seq<Byte>, canonical: Archive, k: nat, elf: seq<Byte>, rs: seq<Bundle.Retained>,
                       result: Archive)
    requires ParseArchive(bytes) == Accepted(canonical) && OneInit(canonical.entries, k)
    requires NoReserved(canonical.entries) && AllUnsigned32(canonical.entries)
    requires GoodExecutable(elf) && Bundle.GoodRetained(rs) && Bundle.RuntimeBundle(rs).Some?
    requires Compose(canonical, k, elf + Bundle.RuntimeBundle(rs).value) == Some(result)
    requires |bytes| < TWO32 && |elf + Bundle.RuntimeBundle(rs).value| < TWO32
    ensures SerializeArchive(result).Some?
    ensures
      var read := ParseArchive(SerializeArchive(result).value);
      && read.Accepted? && OneInit(read.value.entries, k) && Accepts(canonical, k, read.value, k)
  {
    hide Bundle.GoodRetained, Bundle.RuntimeBundle, GoodExecutable, Compose, ParseArchive, OneInit, NoReserved,
         AllUnsigned32, Accepts, AllFit;
    BundledIsGood(elf, rs);
    ComposedValidates(bytes, canonical, k, elf + Bundle.RuntimeBundle(rs).value, result);
  }
}
