/**
 * The naming plan of `renameAll` (histo.go:310-344): walk the ranked pairs
 * in order and copy each file, the first time it is met, to
 * destDir/<slot><ext>, where pair k's pic1 is slot 2k and its pic2 slot 2k+1.
 */
module Rename {
  import opened Types
  import opened Paths

  /** One `cp src dest` invocation. */
  datatype Copy = Copy(src: string, dest: string)

  /** How renameAll ends: normally, or by panicking on a failed MkdirAll or cp. */
  datatype Status = Completed | MkdirFailed | CopyFailed

  /** The destination directory: "sorted" when none is given. */
  function DestDir(destDir: string): (r: string)
    ensures r != []
    ensures destDir != [] ==> r == destDir
  {
    if destDir == "" then "sorted" else destDir
  }

  /** The files in the order renameAll meets them. */
  function Slots(pairs: seq<RankedPair>): (r: seq<string>)
    ensures |r| == 2 * |pairs|
    ensures forall k :: 0 <= k < |pairs| ==> r[2 * k] == pairs[k].pic1 && r[2 * k + 1] == pairs[k].pic2
  {
    if pairs == [] then []
    else Slots(pairs[..|pairs| - 1]) + [pairs[|pairs| - 1].pic1, pairs[|pairs| - 1].pic2]
  }

  /** `filepath.Join(destDir, fmt.Sprintf("%d%s", n, filepath.Ext(f)))`. */
  function Target(dir: string, n: nat, f: string): string
  {
    Join(dir, Decimal(n) + Ext(f))
  }

  /** Slot n holds a file that no earlier slot holds. */
  predicate IsFirstSlot(slots: seq<string>, n: nat)
  {
    n < |slots| && slots[n] !in slots[..n]
  }

  /** The copy renameAll makes for slot n when that slot is a first encounter. */
  function SlotCopy(dir: string, slots: seq<string>, n: nat): Copy
    requires n < |slots|
  {
    Copy(slots[n], Target(dir, n, slots[n]))
  }

  /**
   * The copies renameAll makes, in order, when every cp succeeds: one per
   * slot whose file was not met at an earlier slot.
   */
  function Plan(dir: string, slots: seq<string>): seq<Copy>
  {
    if slots == [] then []
    else
      var init := slots[..|slots| - 1];
      var f := slots[|slots| - 1];
      Plan(dir, init) + (if f in init then [] else [Copy(f, Target(dir, |slots| - 1, f))])
  }

  // ---------------------------------------------------------------------------
  // renameAll, imperatively

  lemma {:induction false} PlanPrefix(dir: string, slots: seq<string>, n: nat)
    requires n <= |slots|
    ensures Plan(dir, slots[..n]) <= Plan(dir, slots)
    decreases |slots|
  {
    if n < |slots| {
      var init := slots[..|slots| - 1];
      assert init[..n] == slots[..n];
      PlanPrefix(dir, init, n);
    } else {
      assert slots[..n] == slots;
    }
  }

  /** One more slot adds its copy to the plan exactly when its file was not met before. */
  lemma PlanStep(dir: string, slots: seq<string>, n: nat)
    requires n < |slots|
    ensures Plan(dir, slots[..n + 1]) ==
            Plan(dir, slots[..n]) + (if slots[n] in slots[..n] then [] else [SlotCopy(dir, slots, n)])
  {
    assert slots[..n + 1][..n] == slots[..n];
  }

  /** Appending a slot: its copy joins the plan when its file is new. */
  lemma PlanSnoc(dir: string, init: seq<string>, f: string)
    ensures Plan(dir, init + [f]) == Plan(dir, init) + (if f in init then [] else [Copy(f, Target(dir, |init|, f))])
  {
    assert (init + [f])[..|init|] == init;
  }

  /**
   * One `if _, ok := done[f]; !ok { ... }` block of renameAll: slot n holds
   * file f; copy it to its numbered name unless it was met before. `ok` is
   * false when the cp fails, which panics.
   */
  method VisitSlot(dir: string, ghost slots: seq<string>, n: nat, f: string,
                   done: map<string, bool>, copies: seq<Copy>, copy: (string, string) -> bool)
    returns (done': map<string, bool>, copies': seq<Copy>, ok: bool)
    requires n < |slots| && slots[n] == f
    requires forall g :: g in done <==> g in slots[..n]
    requires copies == Plan(dir, slots[..n])
    requires forall i :: 0 <= i < |copies| ==> copy(copies[i].src, copies[i].dest)
    ensures copies' == Plan(dir, slots[..n + 1])
    ensures forall i :: 0 <= i < |copies'| - 1 ==> copy(copies'[i].src, copies'[i].dest)
    ensures ok <==> forall i :: 0 <= i < |copies'| ==> copy(copies'[i].src, copies'[i].dest)
    ensures !ok ==> copies' != [] && !copy(copies'[|copies'| - 1].src, copies'[|copies'| - 1].dest)
    ensures ok ==> forall g :: g in done' <==> g in slots[..n + 1]
  {
    PlanStep(dir, slots, n);
    assert slots[..n + 1] == slots[..n] + [f];
    done', copies', ok := done, copies, true;
    if f !in done {
      var ext := Ext(f);
      var name := Decimal(n) + ext;
      var dest := Join(dir, name);
      copies' := copies + [Copy(f, dest)];
      if !copy(f, dest) {
        assert copies'[|copies'| - 1] == Copy(f, dest);
        return done', copies', false;
      }
      done' := done[f := true];
    }
  }

  /**
   * The loop of renameAll over the ranked pairs. `ok` is false when a cp
   * failed; that cp is the last of `copies`.
   */
  method CopyPairs(dir: string, pairs: seq<RankedPair>, copy: (string, string) -> bool)
    returns (copies: seq<Copy>, ok: bool)
    ensures copies <= Plan(dir, Slots(pairs))
    ensures forall i :: 0 <= i < |copies| - 1 ==> copy(copies[i].src, copies[i].dest)
    ensures ok ==> copies == Plan(dir, Slots(pairs))
    ensures ok <==> forall i :: 0 <= i < |copies| ==> copy(copies[i].src, copies[i].dest)
  {
    ghost var slots := Slots(pairs);
    var done: map<string, bool> := map[];
    copies := [];
    var k := 0;
    while k < |pairs|
      invariant 0 <= k <= |pairs|
      invariant forall f :: f in done <==> f in slots[..2 * k]
      invariant copies == Plan(dir, slots[..2 * k])
      invariant forall i :: 0 <= i < |copies| ==> copy(copies[i].src, copies[i].dest)
    {
      var v := pairs[k];
      done, copies, ok := VisitSlot(dir, slots, k * 2, v.pic1, done, copies, copy);
      if !ok {
        PlanPrefix(dir, slots, 2 * k + 1);
        return;
      }
      done, copies, ok := VisitSlot(dir, slots, k * 2 + 1, v.pic2, done, copies, copy);
      if !ok {
        PlanPrefix(dir, slots, 2 * k + 2);
        return;
      }
      k := k + 1;
    }
    assert slots[..2 * k] == slots;
    ok := true;
  }

  /**
   * renameAll on an abstract file system: `mkdirAll(dir)` and `copy(src, dest)`
   * report success. `copies` are the cp invocations made, in order; a failure
   * panics, so nothing after it runs.
   */
  method RenameAll(pairs: seq<RankedPair>, destDir: string,
                   mkdirAll: string -> bool, copy: (string, string) -> bool)
    returns (copies: seq<Copy>, status: Status)
    ensures !mkdirAll(DestDir(destDir)) <==> status == MkdirFailed
    ensures status == MkdirFailed ==> copies == []
    ensures copies <= Plan(DestDir(destDir), Slots(pairs))
    ensures forall i :: 0 <= i < |copies| - 1 ==> copy(copies[i].src, copies[i].dest)
    ensures status == Completed <==>
              mkdirAll(DestDir(destDir)) &&
              copies == Plan(DestDir(destDir), Slots(pairs)) &&
              forall i :: 0 <= i < |copies| ==> copy(copies[i].src, copies[i].dest)
    ensures status == CopyFailed <==>
              copies != [] && !copy(copies[|copies| - 1].src, copies[|copies| - 1].dest)
  {
    var dir := DestDir(destDir);
    if !mkdirAll(dir) {
      return [], MkdirFailed;
    }
    var ok;
    copies, ok := CopyPairs(dir, pairs, copy);
    status := if ok then Completed else CopyFailed;
  }

  // ---------------------------------------------------------------------------
  // Properties of the plan

  /**
   * A copy is in the plan exactly when it is the copy of a slot that is the
   * first encounter of its file.
   */
  lemma {:induction false} PlanMembers(dir: string, slots: seq<string>)
    ensures forall c :: c in Plan(dir, slots) <==> exists n: nat :: IsFirstSlot(slots, n) && c == SlotCopy(dir, slots, n)
  {
    if slots != [] {
      var init := slots[..|slots| - 1];
      var f := slots[|slots| - 1];
      PlanMembers(dir, init);
      forall n: nat | n < |init|
        ensures IsFirstSlot(slots, n) == IsFirstSlot(init, n)
        ensures SlotCopy(dir, slots, n) == SlotCopy(dir, init, n)
      {
        assert slots[..n] == init[..n];
      }
      assert IsFirstSlot(slots, |init|) == (f !in init);
      forall c ensures c in Plan(dir, slots) <==> exists n: nat :: IsFirstSlot(slots, n) && c == SlotCopy(dir, slots, n)
      {
        if exists n: nat :: IsFirstSlot(slots, n) && c == SlotCopy(dir, slots, n) {
          var n: nat :| IsFirstSlot(slots, n) && c == SlotCopy(dir, slots, n);
          if n < |init| {
            assert IsFirstSlot(init, n) && c == SlotCopy(dir, init, n);
          }
        }
      }
    }
  }

  /** Every planned copy reads a file of the walk, and no file is copied twice. */
  lemma {:induction false} PlanSourcesDistinct(dir: string, slots: seq<string>)
    ensures forall i :: 0 <= i < |Plan(dir, slots)| ==> Plan(dir, slots)[i].src in slots
    ensures forall i, j :: 0 <= i < j < |Plan(dir, slots)| ==> Plan(dir, slots)[i].src != Plan(dir, slots)[j].src
  {
    if slots != [] {
      var init := slots[..|slots| - 1];
      PlanSourcesDistinct(dir, init);
      assert forall f :: f in init ==> f in slots;
    }
  }

  /** Every file of the walk is copied: each one has a first slot. */
  lemma PlanCoversFiles(dir: string, slots: seq<string>, f: string)
    requires f in slots
    ensures exists i :: 0 <= i < |Plan(dir, slots)| && Plan(dir, slots)[i].src == f
  {
    var n := FirstSlotOf(slots, f);
    PlanMembers(dir, slots);
    assert SlotCopy(dir, slots, n) in Plan(dir, slots);
  }

  /** The first slot holding f. */
  function FirstSlotOf(slots: seq<string>, f: string): (n: nat)
    requires f in slots
    ensures IsFirstSlot(slots, n) && slots[n] == f
  {
    if slots[0] == f then 0
    else
      var n := FirstSlotOf(slots[1..], f);
      assert slots[1..][..n] == slots[1..n + 1];
      n + 1
  }

  /** Distinct slots give distinct destination paths, whatever the files' extensions. */
  lemma TargetInjective(dir: string, n1: nat, f1: string, n2: nat, f2: string)
    requires Target(dir, n1, f1) == Target(dir, n2, f2)
    ensures n1 == n2
  {
    JoinInjective(dir, Decimal(n1) + Ext(f1), Decimal(n2) + Ext(f2));
    NumberedNameInjective(n1, Ext(f1), n2, Ext(f2));
  }

  /** No two planned copies write the same destination. */
  lemma PlanDestsDistinct(dir: string, slots: seq<string>)
    ensures forall i, j :: 0 <= i < j < |Plan(dir, slots)| ==> Plan(dir, slots)[i].dest != Plan(dir, slots)[j].dest
  {
    var p := Plan(dir, slots);
    PlanMembers(dir, slots);
    PlanSourcesDistinct(dir, slots);
    forall i, j | 0 <= i < j < |p|
      ensures p[i].dest != p[j].dest
    {
      assert p[i] in p && p[j] in p;
      var n1: nat :| IsFirstSlot(slots, n1) && p[i] == SlotCopy(dir, slots, n1);
      var n2: nat :| IsFirstSlot(slots, n2) && p[j] == SlotCopy(dir, slots, n2);
      if p[i].dest == p[j].dest {
        TargetInjective(dir, n1, slots[n1], n2, slots[n2]);
        assert false;
      }
    }
  }

  /**
   * When pair k's pic1 was not met before, it is copied to 2k + its own
   * extension; when its pic2 was not met before (pic1 included), to 2k+1.
   */
  lemma FirstEncounterNames(dir: string, pairs: seq<RankedPair>, k: nat)
    requires k < |pairs|
    ensures pairs[k].pic1 !in Slots(pairs)[..2 * k] ==>
              Copy(pairs[k].pic1, Join(dir, Decimal(2 * k) + Ext(pairs[k].pic1))) in Plan(dir, Slots(pairs))
    ensures pairs[k].pic2 !in Slots(pairs)[..2 * k + 1] ==>
              Copy(pairs[k].pic2, Join(dir, Decimal(2 * k + 1) + Ext(pairs[k].pic2))) in Plan(dir, Slots(pairs))
  {
    var slots := Slots(pairs);
    PlanMembers(dir, slots);
    assert SlotCopy(dir, slots, 2 * k) == Copy(pairs[k].pic1, Join(dir, Decimal(2 * k) + Ext(pairs[k].pic1)));
    assert SlotCopy(dir, slots, 2 * k + 1) == Copy(pairs[k].pic2, Join(dir, Decimal(2 * k + 1) + Ext(pairs[k].pic2)));
  }

  /** A ".jpg" file keeps its extension: in slot n it is copied to "<n>.jpg". */
  lemma TargetKeepsJpg(dir: string, n: nat, stem: string)
    ensures Target(dir, n, stem + ".jpg") == Join(dir, Decimal(n) + ".jpg")
  {
    var p := stem + ".jpg";
    var k := |p|;
    assert p[k - 4..] == ".jpg";
    assert p[k - 1] == 'g' && p[k - 2] == 'p' && p[k - 3] == 'j' && p[k - 4] == '.';
    assert ExtScan(p, k) == ExtScan(p, k - 1) == ExtScan(p, k - 2) == ExtScan(p, k - 3) == p[k - 4..];
  }
}
