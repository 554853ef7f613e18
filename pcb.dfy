/**
 * The PCB half of back-annotation (`remap_pcb` in both scripts): every
 * footprint whose designator changes gets its new reference, and in the
 * saved board file every auto-generated net name `Net-(<old>-<pad>)` is
 * renamed by writing the new designator behind the private marker, which is
 * stripped once all records are done. kicad/scripts/annotate_pcb.py skips
 * records whose designator does not change (`skipUnchanged`);
 * kicad/back_annotate.py processes every record.
 */
module Pcb {
  import opened Results
  import opened Text
  import opened Schematic
  import opened SchematicDocument

  /** The footprint a record points at (its index on the board) and its old and new designators. */
  datatype Relabel = Relabel(handle: nat, oldRef: string, newRef: string)

  function RenameOf(l: Relabel): Rename { Rename(l.oldRef, l.newRef) }

  function Renames(ls: seq<Relabel>): (rs: seq<Rename>)
    ensures |rs| == |ls| && forall k :: 0 <= k < |ls| ==> rs[k] == RenameOf(ls[k])
  {
    seq(|ls|, k requires 0 <= k < |ls| => RenameOf(ls[k]))
  }

  /** The record is processed: annotate_pcb.py skips the ones whose designator stays. */
  predicate Processed(oldRef: string, newRef: string, skipUnchanged: bool)
  {
    !(skipUnchanged && oldRef == newRef)
  }

  // ---------------------------------------------------------------------------
  // SetReference on the footprints

  /** The board's designators, indexed by footprint, after `SetReference` for each processed record in turn. */
  function Relabelled(refs: seq<string>, ls: seq<Relabel>, skipUnchanged: bool): (out: seq<string>)
    requires forall k :: 0 <= k < |ls| ==> ls[k].handle < |refs|
    ensures |out| == |refs|
    decreases |ls|
  {
    if ls == [] then refs
    else
      var prev := Relabelled(refs, ls[..|ls| - 1], skipUnchanged);
      var l := ls[|ls| - 1];
      if Processed(l.oldRef, l.newRef, skipUnchanged) then prev[l.handle := l.newRef] else prev
  }

  /** The number of records the loop processes. */
  function ProcessedCount(rs: seq<Rename>, skipUnchanged: bool): nat
    decreases |rs|
  {
    if rs == [] then 0
    else ProcessedCount(rs[..|rs| - 1], skipUnchanged)
         + (if Processed(rs[|rs| - 1].oldRef, rs[|rs| - 1].newRef, skipUnchanged) then 1 else 0)
  }

  lemma {:induction false} ProcessedCountChanging(rs: seq<Rename>, skipUnchanged: bool)
    ensures ProcessedCount(rs, skipUnchanged) == if skipUnchanged then Changing(rs) else |rs|
    decreases |rs|
  {
    if rs != [] {
      ProcessedCountChanging(rs[..|rs| - 1], skipUnchanged);
    }
  }

  /** The first loop of `remap_pcb`: rename the footprints, unless in dry-run, and count the renamed ones. */
  method SetReferences(refs: array<string>, ls: seq<Relabel>, dryRun: bool, skipUnchanged: bool)
    returns (compRenames: nat)
    requires forall k :: 0 <= k < |ls| ==> ls[k].handle < refs.Length
    modifies refs
    ensures refs[..] == if dryRun then old(refs[..]) else Relabelled(old(refs[..]), ls, skipUnchanged)
    ensures compRenames == ProcessedCount(Renames(ls), skipUnchanged)
  {
    compRenames := 0;
    var i := 0;
    while i < |ls|
      invariant 0 <= i <= |ls|
      invariant refs[..] == if dryRun then old(refs[..]) else Relabelled(old(refs[..]), ls[..i], skipUnchanged)
      invariant compRenames == ProcessedCount(Renames(ls)[..i], skipUnchanged)
    {
      var l := ls[i];
      assert ls[..i + 1][..i] == ls[..i];
      assert Renames(ls)[..i + 1][..i] == Renames(ls)[..i];
      if Processed(l.oldRef, l.newRef, skipUnchanged) {
        compRenames := compRenames + 1;
        if !dryRun {
          refs[l.handle] := l.newRef;
        }
      }
      i := i + 1;
    }
    assert ls[..i] == ls;
    assert Renames(ls)[..i] == Renames(ls);
  }

  /**
   * When every record points at its own footprint and names that
   * footprint's current designator, each footprint ends up with its record's
   * new designator and the others keep theirs.
   */
  lemma {:induction false} RelabelledSpec(refs: seq<string>, ls: seq<Relabel>, skipUnchanged: bool)
    requires forall k :: 0 <= k < |ls| ==> ls[k].handle < |refs| && refs[ls[k].handle] == ls[k].oldRef
    requires forall k, m :: 0 <= k < m < |ls| ==> ls[k].handle != ls[m].handle
    ensures forall k :: 0 <= k < |ls| ==> Relabelled(refs, ls, skipUnchanged)[ls[k].handle] == ls[k].newRef
    ensures forall h :: 0 <= h < |refs| && (forall k :: 0 <= k < |ls| ==> ls[k].handle != h)
              ==> Relabelled(refs, ls, skipUnchanged)[h] == refs[h]
    decreases |ls|
  {
    if ls != [] {
      RelabelledSpec(refs, ls[..|ls| - 1], skipUnchanged);
    }
  }

  /** Skipping the records whose designator stays, as annotate_pcb.py does, changes nothing on the board. */
  lemma RelabelledSkipAgrees(refs: seq<string>, ls: seq<Relabel>)
    requires forall k :: 0 <= k < |ls| ==> ls[k].handle < |refs| && refs[ls[k].handle] == ls[k].oldRef
    requires forall k, m :: 0 <= k < m < |ls| ==> ls[k].handle != ls[m].handle
    ensures Relabelled(refs, ls, true) == Relabelled(refs, ls, false)
  {
    RelabelledSpec(refs, ls, true);
    RelabelledSpec(refs, ls, false);
    forall h | 0 <= h < |refs| ensures Relabelled(refs, ls, true)[h] == Relabelled(refs, ls, false)[h] {
      if k :| 0 <= k < |ls| && ls[k].handle == h {
      }
    }
  }

  // ---------------------------------------------------------------------------
  // re.findall("Net-[(]<old>-.*?[)]", data)

  function NetPrefix(oldRef: string): string { "Net-(" + oldRef + "-" }

  /**
   * The end (one past the `)`) of the shortest `.*?[)]` starting at `k`:
   * the first `)` from `k`, provided no newline comes before it, since `.`
   * does not match a newline.
   */
  function CloseAt(s: string, k: nat): (e: Option<nat>)
    ensures e.Some? ==> k < e.value <= |s| && s[e.value - 1] == ')'
    ensures e.Some? ==> forall j :: k <= j < e.value - 1 ==> s[j] != ')' && s[j] != '\n'
    ensures e.None? ==> forall j :: k <= j < |s| && s[j] == ')' ==> exists m :: k <= m < j && s[m] == '\n'
    decreases |s| - k
  {
    if k >= |s| then None
    else if s[k] == ')' then Some(k + 1)
    else if s[k] == '\n' then None
    else CloseAt(s, k + 1)
  }

  /** The end of the match of the net pattern for `oldRef` at the start of `s`, if there is one. */
  function NetAt(s: string, oldRef: string): (e: Option<nat>)
    ensures !StartsWith(s, NetPrefix(oldRef)) ==> e.None?
    ensures e.Some? ==> StartsWith(s, NetPrefix(oldRef)) && |NetPrefix(oldRef)| < e.value <= |s| && s[e.value - 1] == ')'
    ensures e.Some? ==> forall j :: |NetPrefix(oldRef)| <= j < e.value - 1 ==> s[j] != ')' && s[j] != '\n'
  {
    if StartsWith(s, NetPrefix(oldRef)) then CloseAt(s, |NetPrefix(oldRef)|) else None
  }

  /** The non-overlapping matches from left to right, as `re.findall` lists them. */
  function FindNets(s: string, oldRef: string): (nets: seq<string>)
    ensures forall n :: n in nets ==> StartsWith(n, NetPrefix(oldRef)) && n[|n| - 1] == ')'
    ensures forall n :: n in nets ==> forall j :: |NetPrefix(oldRef)| <= j < |n| - 1 ==> n[j] != ')' && n[j] != '\n'
    decreases |s|
  {
    if s == [] then []
    else match NetAt(s, oldRef)
      case Some(e) =>
        assert s[..e][..|NetPrefix(oldRef)|] == s[..|NetPrefix(oldRef)|];
        [s[..e]] + FindNets(s[e..], oldRef)
      case None => FindNets(s[1..], oldRef)
  }

  /** `list(set(nets))`, taken in order of first occurrence: the hash order of a set is not modelled. */
  function Dedup(s: seq<string>): (d: seq<string>)
    ensures forall x :: x in d <==> x in s
    ensures forall i, j :: 0 <= i < j < |d| ==> d[i] != d[j]
    decreases |s|
  {
    if s == [] then []
    else
      var prev := Dedup(s[..|s| - 1]);
      if s[|s| - 1] in prev then prev else prev + [s[|s| - 1]]
  }

  /** `net.replace("(" + old, "(\x01" + new)`. */
  function NetReplacement(net: string, oldRef: string, newRef: string): string
  {
    Replace(net, "(" + oldRef, "(" + [Marker] + newRef)
  }

  /** The inner loop: each net in turn is replaced everywhere by its replacement. */
  function ReplaceNets(data: string, nets: seq<string>, oldRef: string, newRef: string): string
    requires forall k :: 0 <= k < |nets| ==> nets[k] != []
    decreases |nets|
  {
    if nets == [] then data
    else
      var n := nets[|nets| - 1];
      Replace(ReplaceNets(data, nets[..|nets| - 1], oldRef, newRef), n, NetReplacement(n, oldRef, newRef))
  }

  /** The buffer and the `net_renames` counter between records. */
  datatype NetPass = NetPass(data: string, renames: nat)

  function NetStep(st: NetPass, rn: Rename, dryRun: bool, skipUnchanged: bool): NetPass
  {
    if !Processed(rn.oldRef, rn.newRef, skipUnchanged) then st
    else
      var nets := Dedup(FindNets(st.data, rn.oldRef));
      NetPass(if dryRun then st.data else ReplaceNets(st.data, nets, rn.oldRef, rn.newRef), st.renames + 1)
  }

  function NetSteps(st: NetPass, rs: seq<Rename>, dryRun: bool, skipUnchanged: bool): NetPass
    decreases |rs|
  {
    if rs == [] then st
    else NetStep(NetSteps(st, rs[..|rs| - 1], dryRun, skipUnchanged), rs[|rs| - 1], dryRun, skipUnchanged)
  }

  /** What the net half leaves behind: the text written back to the board file, and the counter. */
  datatype PcbOutcome = PcbOutcome(written: Option<string>, netRenames: nat)

  function RemapNetsSpec(saved: string, rs: seq<Rename>, dryRun: bool, skipUnchanged: bool): PcbOutcome
  {
    var st := NetSteps(NetPass(saved, 0), rs, dryRun, skipUnchanged);
    PcbOutcome(if dryRun then None else Some(Strip(st.data)), st.renames)
  }

  /** The loop over the nets found for one record. */
  method ReplaceNetsLoop(data: string, nets: seq<string>, oldRef: string, newRef: string) returns (out: string)
    requires forall k :: 0 <= k < |nets| ==> nets[k] != []
    ensures out == ReplaceNets(data, nets, oldRef, newRef)
  {
    out := data;
    var j := 0;
    while j < |nets|
      invariant 0 <= j <= |nets|
      invariant out == ReplaceNets(data, nets[..j], oldRef, newRef)
    {
      var net := nets[j];
      var replacement := NetReplacement(net, oldRef, newRef);
      assert nets[..j + 1][..j] == nets[..j];
      out := Replace(out, net, replacement);
      j := j + 1;
    }
    assert nets[..j] == nets;
  }

  lemma NetStepsSnoc(st: NetPass, rs: seq<Rename>, i: nat, dryRun: bool, skipUnchanged: bool)
    requires i < |rs|
    ensures NetSteps(st, rs[..i + 1], dryRun, skipUnchanged)
         == NetStep(NetSteps(st, rs[..i], dryRun, skipUnchanged), rs[i], dryRun, skipUnchanged)
  {
    assert rs[..i + 1][..i] == rs[..i];
  }

  /** The second loop of `remap_pcb`, over the board file as it reads back after `SaveBoard`. */
  method RemapNets(saved: string, rs: seq<Rename>, dryRun: bool, skipUnchanged: bool)
    returns (written: Option<string>, netRenames: nat)
    ensures PcbOutcome(written, netRenames) == RemapNetsSpec(saved, rs, dryRun, skipUnchanged)
  {
    var data := saved;
    netRenames := 0;
    var i := 0;
    while i < |rs|
      invariant 0 <= i <= |rs|
      invariant NetSteps(NetPass(saved, 0), rs[..i], dryRun, skipUnchanged) == NetPass(data, netRenames)
    {
      var rn := rs[i];
      NetStepsSnoc(NetPass(saved, 0), rs, i, dryRun, skipUnchanged);
      if Processed(rn.oldRef, rn.newRef, skipUnchanged) {
        netRenames := netRenames + 1;
        var nets := Dedup(FindNets(data, rn.oldRef));
        if !dryRun {
          data := ReplaceNetsLoop(data, nets, rn.oldRef, rn.newRef);
        }
      }
      i := i + 1;
    }
    assert rs[..i] == rs;
    if !dryRun {
      data := Strip(data);
      written := Some(data);
    } else {
      written := None;
    }
  }

  /**
   * `remap_pcb(board, pcb_file, records, dry_run)`: the footprints on the
   * board are `refs`, and `saved` is the board file as it reads back after
   * `SaveBoard`.
   */
  method RemapPcb(refs: array<string>, ls: seq<Relabel>, saved: string, dryRun: bool, skipUnchanged: bool)
    returns (written: Option<string>, compRenames: nat, netRenames: nat)
    requires forall k :: 0 <= k < |ls| ==> ls[k].handle < refs.Length
    modifies refs
    ensures refs[..] == if dryRun then old(refs[..]) else Relabelled(old(refs[..]), ls, skipUnchanged)
    ensures compRenames == ProcessedCount(Renames(ls), skipUnchanged)
    ensures PcbOutcome(written, netRenames) == RemapNetsSpec(saved, Renames(ls), dryRun, skipUnchanged)
  {
    compRenames := SetReferences(refs, ls, dryRun, skipUnchanged);
    written, netRenames := RemapNets(saved, Renames(ls), dryRun, skipUnchanged);
  }

  // ---------------------------------------------------------------------------
  // Properties of the net pass

  /**
   * `net_renames` counts records, not nets: with the skip it is the number of
   * renames that change a name, as `comp_renames` is; in dry-run the buffer
   * is never touched.
   */
  lemma {:induction false} NetStepsCount(saved: string, rs: seq<Rename>, dryRun: bool, skipUnchanged: bool)
    ensures NetSteps(NetPass(saved, 0), rs, dryRun, skipUnchanged).renames == ProcessedCount(rs, skipUnchanged)
    ensures dryRun ==> NetSteps(NetPass(saved, 0), rs, dryRun, skipUnchanged).data == saved
    decreases |rs|
  {
    if rs != [] {
      NetStepsCount(saved, rs[..|rs| - 1], dryRun, skipUnchanged);
    }
  }

  /**
   * The net half writes nothing in dry-run and otherwise writes a text without
   * markers; with the skip its counter equals the number of footprints renamed.
   */
  lemma RemapNetsOutcome(saved: string, ls: seq<Relabel>, dryRun: bool, skipUnchanged: bool)
    ensures var o := RemapNetsSpec(saved, Renames(ls), dryRun, skipUnchanged);
            (dryRun <==> o.written.None?)
            && (o.written.Some? ==> Marker !in o.written.value)
            && o.netRenames == ProcessedCount(Renames(ls), skipUnchanged)
            && (skipUnchanged ==> o.netRenames == Changing(Renames(ls)))
  {
    var st := NetSteps(NetPass(saved, 0), Renames(ls), dryRun, skipUnchanged);
    StripDropsMarkers(st.data);
    NetStepsCount(saved, Renames(ls), dryRun, skipUnchanged);
    ProcessedCountChanging(Renames(ls), skipUnchanged);
  }

  /**
   * The pattern for `oldRef` needs the `-` right after the designator, so the
   * nets of another designator, such as `R10` when renaming `R1`, never match.
   */
  lemma OtherNetsUnmatched(r: Ref, oldRef: string, rest: string)
    requires IsDesignator(r.name) && IsDesignator(oldRef) && r != Ref(oldRef, false)
    ensures !StartsWith("Net-(" + RefText(r) + "-" + rest, NetPrefix(oldRef))
  {
    var s := "Net-(" + RefText(r) + "-" + rest;
    var p := NetPrefix(oldRef);
    var body := RefText(r);
    if |body| < |oldRef| {
      assert s[5 + |body|] == '-' && p[5 + |body|] == oldRef[|body|];
    } else if |body| > |oldRef| {
      assert s[5 + |oldRef|] == body[|oldRef|] && p[5 + |oldRef|] == '-';
    } else if r.marked {
      assert s[5] == Marker && p[5] == oldRef[0];
    } else {
      var j :| 0 <= j < |oldRef| && body[j] != oldRef[j];
      assert s[5 + j] == body[j] && p[5 + j] == oldRef[j];
    }
  }
}
