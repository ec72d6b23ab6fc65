/**
 * Bringing the kernel's partition table into line with the disk's: the two mutable tail partitions are
 * resized, added or deleted one at a time, after both have been read and checked.
 */
module GptRefresh {
  import opened Wrappers
  import opened ByteStrings
  import opened Gpt

  const USERDATA: nat := 26
  const OS: nat := 27

  datatype Op = Add(partition: nat, extent: Extent) | Resize(partition: nat, extent: Extent) | Delete(partition: nat)

  type Table = map<nat, Extent>

  /** What an operation does to the kernel's table when it succeeds. */
  function Apply(table: Table, op: Op): Table {
    if op.Delete? then map p | p in table && p != op.partition :: table[p] else table[op.partition := op.extent]
  }

  function ApplyAll(table: Table, ops: seq<Op>): Table
    decreases |ops|
  {
    if ops == [] then table else ApplyAll(Apply(table, ops[0]), ops[1..])
  }

  /** Both targets, or None if the table on disk is refused. */
  function Checked(disk: seq<Byte>): Option<(Target, Target)> {
    var userdata, os := TargetOf(disk, USERDATA), TargetOf(disk, OS);
    if userdata.None? || !userdata.value.Present? || userdata.value.name != Ascii("userdata") then None
    else if os.None? || (os.value.Present? && os.value.name != Ascii("treeforge_os")) then None
    else Some((userdata.value, os.value))
  }

  /** The operations one partition needs; None where none is allowed. */
  function Needed(table: Table, partition: nat, t: Target): Option<seq<Op>> {
    if t.Present? then Some([if partition in table then Resize(partition, t.extent) else Add(partition, t.extent)])
    else if partition !in table then Some([])
    else if partition != OS then None
    else Some([Delete(partition)])
  }

  /** The kernel's entry is the one on disk. */
  predicate Agrees(table: Table, partition: nat, t: Target) {
    if t.Present? then partition in table && table[partition] == t.extent else partition !in table
  }

  ghost predicate SameElsewhere(a: Table, b: Table) {
    forall p: nat :: p != USERDATA && p != OS ==> (p in a <==> p in b) && (p in a ==> a[p] == b[p])
  }

  /** The kernel takes an addition only where there is no partition, and the others only where there is one. */
  predicate Legal(table: Table, op: Op) {
    op.Add? <==> op.partition !in table
  }

  predicate LegalAll(table: Table, ops: seq<Op>)
    decreases |ops|
  {
    ops == [] || (Legal(table, ops[0]) && LegalAll(Apply(table, ops[0]), ops[1..]))
  }

  lemma LegalTwo(table: Table, a: seq<Op>, b: seq<Op>)
    requires |a| <= 1 && |b| <= 1 && LegalAll(table, a) && LegalAll(ApplyAll(table, a), b)
    ensures LegalAll(table, a + b)
  {
    if a == [] {
      assert a + b == b;
    } else {
      assert a == [a[0]];
      ApplyOne(table, a[0]);
      assert (a + b)[0] == a[0] && (a + b)[1..] == b;
    }
  }

  lemma NeededLegal(table: Table, partition: nat, t: Target)
    requires Needed(table, partition, t).Some?
    ensures LegalAll(table, Needed(table, partition, t).value)
  {
    var ops := Needed(table, partition, t).value;
    assert ops != [] ==> ops[1..] == [];
  }

  lemma PlanLegal(table: Table, targets: (Target, Target))
    requires targets.0.Present?
    ensures LegalAll(table, Plan(table, targets))
  {
    hide ApplyAll, LegalAll;
    var first := Needed(table, USERDATA, targets.0).value;
    NeededLegal(table, USERDATA, targets.0);
    NeededEffect(table, USERDATA, targets.0);
    var between := ApplyAll(table, first);
    NeededLegal(between, OS, targets.1);
    NeededEffect(between, OS, targets.1);
    LegalTwo(table, first, Needed(between, OS, targets.1).value);
  }

  /** All operations of a refresh, in order, if none fails. */
  function Plan(table: Table, targets: (Target, Target)): seq<Op>
    requires targets.0.Present?
  {
    var first := Needed(table, USERDATA, targets.0).value;
    first + Needed(ApplyAll(table, first), OS, targets.1).value
  }

  /**
   * A refresh of a table that passes the checks leaves the kernel agreeing with the disk on both partitions
   * and everything else alone; a second one asks for at most resizes to what is already there, changing nothing.
   */
  lemma RefreshAgrees(table: Table, disk: seq<Byte>)
    requires Checked(disk).Some?
    ensures
      var targets := Checked(disk).value;
      var plan := Plan(table, targets);
      var done := ApplyAll(table, plan);
      && (forall i :: 0 <= i < |plan| ==> plan[i].partition == 27 || (plan[i].partition == 26 && !plan[i].Delete?))
      && LegalAll(table, plan)
      && Agrees(done, USERDATA, targets.0) && Agrees(done, OS, targets.1) && SameElsewhere(table, done)
      && (forall i :: 0 <= i < |Plan(done, targets)| ==> Plan(done, targets)[i].Resize?)
      && ApplyAll(done, Plan(done, targets)) == done
  {
    hide TargetOf, ApplyAll, LegalAll;
    var targets := Checked(disk).value;
    PlanLegal(table, targets);
    var done := ApplyAll(table, Plan(table, targets));
    PlanEffect(table, targets);
    PlanEffect(done, targets);
    SettledPlan(done, targets);
    var again := ApplyAll(done, Plan(done, targets));
    SameTable(done, again, targets);
  }

  /** The entry of a partition is read without wrapping, and is not the pair whose length wraps. */
  predicate Straight(disk: seq<Byte>, partition: nat)
    requires partition > 0
  {
    && !OffsetWraps(disk, partition)
    && (TargetOf(disk, partition).Some? && TargetOf(disk, partition).value.Present?
        && EntryRead(disk, partition).Some? ==>
          !WholeRange(EntryRead(disk, partition).value))
  }

  /**
   * So the kernel ends up with the two partitions as the table has them in unbounded arithmetic, whenever
   * neither entry's offset wraps and neither is the pair 0, 2^64 - 1.
   */
  lemma RefreshIsIdeal(table: Table, disk: seq<Byte>)
    requires Checked(disk).Some? && |disk| <= SEEK_LIMIT
    requires Straight(disk, USERDATA) && Straight(disk, OS)
    ensures IdealTarget(disk, USERDATA).Some? && IdealTarget(disk, OS).Some?
    ensures
      var done := ApplyAll(table, Plan(table, Checked(disk).value));
      && Agrees(done, USERDATA, IdealTarget(disk, USERDATA).value) && Agrees(done, OS, IdealTarget(disk, OS).value)
      && SameElsewhere(table, done)
  {
    hide TargetOf, IdealTarget, EntryRead, OffsetWraps, WholeRange, ApplyAll, Plan, Agrees, SameElsewhere, Ascii;
    RefreshAgrees(table, disk);
    TargetAgreesIff(disk, USERDATA);
    TargetAgreesIff(disk, OS);
  }

  lemma ApplyTwo(table: Table, a: seq<Op>, b: seq<Op>)
    requires |a| <= 1 && |b| <= 1
    ensures ApplyAll(table, a + b) == ApplyAll(ApplyAll(table, a), b)
  {
    if a == [] {
      assert a + b == b;
    } else {
      assert a + b == [a[0]] + b && (a + b)[1..] == b && a[1..] == [];
    }
  }

  lemma NeededEffect(table: Table, partition: nat, t: Target)
    requires Needed(table, partition, t).Some?
    ensures
      var ops := Needed(table, partition, t).value;
      var done := ApplyAll(table, ops);
      && |ops| <= 1 && (forall i :: 0 <= i < |ops| ==>
                          ops[i].partition == partition && (ops[i].Delete? ==> partition == OS))
      && Agrees(done, partition, t)
      && forall p: nat :: p != partition ==> (p in table <==> p in done) && (p in table ==> table[p] == done[p])
  {
    var ops := Needed(table, partition, t).value;
    if ops != [] {
      assert ops[1..] == [];
    }
  }

  lemma PlanEffect(table: Table, targets: (Target, Target))
    requires targets.0.Present?
    ensures
      var plan := Plan(table, targets);
      var done := ApplyAll(table, plan);
      && (forall i :: 0 <= i < |plan| ==> plan[i].partition == 27 || (plan[i].partition == 26 && !plan[i].Delete?))
      && Agrees(done, USERDATA, targets.0) && Agrees(done, OS, targets.1) && SameElsewhere(table, done)
  {
    hide ApplyAll;
    var first := Needed(table, USERDATA, targets.0).value;
    NeededEffect(table, USERDATA, targets.0);
    var between := ApplyAll(table, first);
    NeededEffect(between, OS, targets.1);
    ApplyTwo(table, first, Needed(between, OS, targets.1).value);
  }

  lemma SettledPlan(table: Table, targets: (Target, Target))
    requires targets.0.Present? && Agrees(table, USERDATA, targets.0) && Agrees(table, OS, targets.1)
    ensures forall i :: 0 <= i < |Plan(table, targets)| ==> Plan(table, targets)[i].Resize?
  {
    NeededEffect(table, USERDATA, targets.0);
  }

  lemma SameTable(a: Table, b: Table, targets: (Target, Target))
    requires SameElsewhere(a, b)
    requires Agrees(a, USERDATA, targets.0) && Agrees(b, USERDATA, targets.0)
    requires Agrees(a, OS, targets.1) && Agrees(b, OS, targets.1)
    ensures b == a
  {
    assert forall p: nat :: (p in a <==> p in b) && (p in a ==> a[p] == b[p]);
  }

  /** A refresh that stops early has done an initial part of the plan. */
  ghost predicate PartOf(ops: seq<Op>, plan: seq<Op>) {
    ops <= plan
  }

  /** The kernel: its partition table and every operation it was asked for. */
  class Kernel {
    var table: Table
    ghost var asked: seq<Op>
    /** In the last refresh: an operation was refused; the devices did not settle or could not be named. */
    ghost var refused: bool
    ghost var unsettled: bool

    /** The BLKPG ioctl: it may refuse; when it does not, the table changes as asked. */
    method Blkpg(op: Op) returns (ok: bool)
      modifies this
      ensures asked == old(asked) + [op]
      ensures table == if ok then Apply(old(table), op) else old(table)
      ensures refused == (old(refused) || !ok) && unsettled == old(unsettled)
    {
      asked := asked + [op];
      var refuses: bool := *;
      ok := !refuses;
      if ok {
        table := Apply(table, op);
      } else {
        refused := true;
      }
    }

    /** `tfb_refresh_one_gpt_partition`. */
    method RefreshOne(partition: nat, t: Target) returns (ok: bool)
      modifies this
      ensures Needed(old(table), partition, t).None? ==> !ok && asked == old(asked)
      ensures Needed(old(table), partition, t).Some? ==> asked == old(asked) + Needed(old(table), partition, t).value
      ensures ok ==> table == ApplyAll(old(table), Needed(old(table), partition, t).value)
      ensures !ok ==> table == old(table)
      ensures !ok ==> Needed(old(table), partition, t).None? || refused
      ensures refused ==> old(refused) || !ok
      ensures unsettled == old(unsettled)
    {
      var exists_ := partition in table;
      if !t.Present? {
        if !exists_ {
          return true;
        }
        if partition != OS {
          return false;
        }
        ok := Blkpg(Delete(partition));
        ApplyOne(old(table), Delete(partition));
        return;
      }
      var op := if exists_ then Resize(partition, t.extent) else Add(partition, t.extent);
      ok := Blkpg(op);
      ApplyOne(old(table), op);
    }

    /**
     * `tfb_reprobe_block_partitions`: nothing is asked of the kernel unless both entries pass; what is asked
     * is the plan or a first part of it; success means the whole plan was carried out. Failure has a cause: the
     * disk, the device, a refusal, or devices that do not settle.
     */
    method Reprobe(device: Device) returns (ok: bool)
      requires !device.failed
      modifies this, device
      ensures ok <==> Checked(device.bytes).Some? && !device.failed && !refused && !unsettled
      ensures Checked(device.bytes).None? ==> !ok && asked == old(asked) && table == old(table)
      ensures device.failed ==> !ok && asked == old(asked) && table == old(table)
      ensures Checked(device.bytes).Some? ==>
                var plan := Plan(old(table), Checked(device.bytes).value);
                && |asked| >= |old(asked)| && asked[..|old(asked)|] == old(asked)
                && PartOf(asked[|old(asked)|..], plan)
                && (ok ==> asked == old(asked) + plan && table == ApplyAll(old(table), plan))
                && exists k :: 0 <= k <= |asked| - |old(asked)| && table == ApplyAll(old(table), plan[..k])
    {
      hide TargetOf, ApplyAll, Apply;
      ok := false;
      refused, unsettled := false, false;
      NoneApplied(table, if Checked(device.bytes).Some? then Plan(table, Checked(device.bytes).value) else []);
      var userdata := device.ReadPartitionTarget(USERDATA);
      if userdata.None? || !userdata.value.Present? || userdata.value.name != Ascii("userdata") {
        return;
      }
      var os := device.ReadPartitionTarget(OS);
      if os.None? || (os.value.Present? && os.value.name != Ascii("treeforge_os")) {
        return;
      }
      ghost var targets := (userdata.value, os.value);
      assert Checked(device.bytes) == Some(targets);
      ghost var plan, first := Plan(table, targets), Needed(table, USERDATA, targets.0).value;
      assert plan[..|first|] == first;
      var refreshed := RefreshOne(USERDATA, userdata.value);
      if !refreshed {
        return;
      }
      NeededEffect(old(table), USERDATA, targets.0);
      ghost var second := Needed(table, OS, targets.1).value;
      ApplyTwo(old(table), first, second);
      assert plan[..|plan|] == plan;
      NeededEffect(table, OS, targets.1);
      refreshed := RefreshOne(OS, os.value);
      if !refreshed {
        return;
      }
      ok := Settle(os.value.Present?);
    }

    /** Waiting for the block devices to show up, and naming them; the kernel's table is only read. */
    method Settle(present: bool) returns (ok: bool)
      requires present == (OS in table) && !unsettled
      modifies this`unsettled
      ensures unsettled == !ok
    {
      var attempt := 0;
      while attempt < 20
        invariant !unsettled
      {
        var osExists := OS in table;
        if osExists == present {
          var realized: bool, aliased: bool := *, *;
          if realized {
            unsettled := !aliased;
            return aliased;
          }
        }
        attempt := attempt + 1;
      }
      unsettled := true;
      ok := false;
    }
  }

  lemma NoneApplied(table: Table, plan: seq<Op>)
    ensures ApplyAll(table, plan[..0]) == table
  {}

  lemma ApplyOne(table: Table, op: Op)
    ensures ApplyAll(table, [op]) == Apply(table, op)
  {
    assert [op][1..] == [];
  }
}
