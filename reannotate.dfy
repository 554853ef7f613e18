/**
 * The record pipeline of kicad/scripts/annotate_pcb.py and its older twin
 * kicad/back_annotate.py: every footprint on the board becomes a record,
 * the coordinates are normalised to [-1, 1], the records are ordered by a
 * placement key, and each record receives a new designator numbered within
 * its run of equal component type.
 */
module Reannotate {
  import opened Results
  import opened Text
  import opened StableSort

  /** A footprint on the board: its designator, its position in board units and its side. */
  datatype Module = Module(reference: string, x: int, y: int, flipped: bool)

  /**
   * A component record `[reference, position, flipped, comp_type, module]`.
   * `handle` is the index of the module on the board, and `newRef` is the
   * designator `calculate_remaps` appends (`None` until it has run).
   */
  datatype Record = Record(reference: string, x: real, y: real, flipped: bool,
                           compType: string, handle: nat, newRef: Option<string>)

  // ---------------------------------------------------------------------------
  // get_module_records

  /** `reference.encode("ASCII")` succeeds. */
  predicate IsAscii(s: string) { forall i :: 0 <= i < |s| ==> s[i] < '\U{80}' }

  /** `"**" in reference`: the designator of a footprint that was never annotated. */
  predicate HasStars(s: string)
  {
    exists i :: 0 <= i < |s| - 1 && s[i] == '*' && s[i + 1] == '*'
  }

  /** The maximal leading run of ASCII letters, which `re.findall("^[a-zA-Z]+", s)` lists when it is not empty. */
  function LeadingLetters(s: string): (p: string)
    ensures |p| <= |s| && p == s[..|p|]
    ensures forall i :: 0 <= i < |p| ==> IsLetter(p[i])
    ensures |p| < |s| ==> !IsLetter(s[|p|])
    decreases |s|
  {
    if s != [] && IsLetter(s[0]) then [s[0]] + LeadingLetters(s[1..]) else []
  }

  /** annotate_pcb.py skips unannotated footprints (`dropUnassigned`); back_annotate.py keeps every module. */
  predicate Kept(m: Module, dropUnassigned: bool)
  {
    !(dropUnassigned && HasStars(m.reference))
  }

  /** Extraction gets past `m` without raising. */
  predicate Extractable(m: Module, dropUnassigned: bool)
  {
    IsAscii(m.reference) && (Kept(m, dropUnassigned) ==> LeadingLetters(m.reference) != [])
  }

  function ToRecord(m: Module, handle: nat): Record
  {
    Record(m.reference, m.x as real, m.y as real, m.flipped, LeadingLetters(m.reference), handle, None)
  }

  /**
   * The records of the board's modules, in board order. The modules are
   * visited in order and the first one that cannot be encoded or has no
   * type prefix decides the failure.
   */
  function Extract(board: seq<Module>, dropUnassigned: bool): Result<seq<Record>>
    decreases |board|
  {
    if board == [] then Ok([])
    else
      var n := |board| - 1;
      var m := board[n];
      match Extract(board[..n], dropUnassigned)
      case Err(e) => Err(e)
      case Ok(recs) =>
        if !IsAscii(m.reference) then Err(UnicodeError)
        else if !Kept(m, dropUnassigned) then Ok(recs)
        else if LeadingLetters(m.reference) == [] then Err(IndexError)
        else Ok(recs + [ToRecord(m, n)])
  }

  /** Once a prefix of the board has failed, the whole extraction fails the same way. */
  lemma {:induction false} ExtractFailureStays(board: seq<Module>, n: nat, dropUnassigned: bool)
    requires n <= |board| && Extract(board[..n], dropUnassigned).Err?
    ensures Extract(board, dropUnassigned) == Extract(board[..n], dropUnassigned)
    decreases |board|
  {
    if n < |board| {
      var p := board[..|board| - 1];
      assert p[..n] == board[..n];
      ExtractFailureStays(p, n, dropUnassigned);
    } else {
      assert board[..n] == board;
    }
  }

  /** `get_module_records` (both scripts; `dropUnassigned` selects annotate_pcb.py's `**` filter). */
  method GetModuleRecords(board: seq<Module>, dropUnassigned: bool) returns (r: Result<seq<Record>>)
    ensures r == Extract(board, dropUnassigned)
  {
    var records: seq<Record> := [];
    var i := 0;
    while i < |board|
      invariant 0 <= i <= |board|
      invariant Extract(board[..i], dropUnassigned) == Ok(records)
    {
      var m := board[i];
      assert board[..i + 1][..i] == board[..i];
      if !IsAscii(m.reference) {
        ExtractFailureStays(board, i + 1, dropUnassigned);
        return Err(UnicodeError);
      }
      if Kept(m, dropUnassigned) {
        var compType := LeadingLetters(m.reference);
        if compType == [] {
          ExtractFailureStays(board, i + 1, dropUnassigned);
          return Err(IndexError);
        }
        records := records + [ToRecord(m, i)];
      }
      i := i + 1;
    }
    assert board[..i] == board;
    r := Ok(records);
  }

  /** Extraction succeeds exactly when every module is extractable. */
  lemma {:induction false} ExtractSucceeds(board: seq<Module>, dropUnassigned: bool)
    ensures Extract(board, dropUnassigned).Ok?
        <==> forall i :: 0 <= i < |board| ==> Extractable(board[i], dropUnassigned)
    decreases |board|
  {
    if board != [] {
      var n := |board| - 1;
      ExtractSucceeds(board[..n], dropUnassigned);
      assert forall i :: 0 <= i < n ==> board[..n][i] == board[i];
    }
  }

  /** The first module that is not extractable decides the exception: UnicodeError for a non-ASCII designator, else IndexError. */
  lemma {:induction false} ExtractFailure(board: seq<Module>, dropUnassigned: bool)
    requires Extract(board, dropUnassigned).Err?
    ensures exists i :: 0 <= i < |board| && !Extractable(board[i], dropUnassigned)
                     && (forall j :: 0 <= j < i ==> Extractable(board[j], dropUnassigned))
                     && Extract(board, dropUnassigned).failure
                        == (if IsAscii(board[i].reference) then IndexError else UnicodeError)
    decreases |board|
  {
    var n := |board| - 1;
    var p := board[..n];
    assert forall j :: 0 <= j < n ==> p[j] == board[j];
    if Extract(p, dropUnassigned).Err? {
      ExtractFailure(p, dropUnassigned);
      var i :| 0 <= i < |p| && !Extractable(p[i], dropUnassigned)
               && (forall j :: 0 <= j < i ==> Extractable(p[j], dropUnassigned))
               && Extract(p, dropUnassigned).failure
                  == (if IsAscii(p[i].reference) then IndexError else UnicodeError);
      assert board[i] == p[i];
    } else {
      ExtractSucceeds(p, dropUnassigned);
      assert !Extractable(board[n], dropUnassigned);
    }
  }

  /**
   * What a successful extraction holds: one record per kept module, in board
   * order, carrying that module's designator, position, side and type prefix.
   */
  ghost predicate Describes(recs: seq<Record>, board: seq<Module>, dropUnassigned: bool)
  {
    (forall k :: 0 <= k < |recs| ==>
       recs[k].handle < |board| && Kept(board[recs[k].handle], dropUnassigned)
       && recs[k] == ToRecord(board[recs[k].handle], recs[k].handle)) &&
    (forall k, l :: 0 <= k < l < |recs| ==> recs[k].handle < recs[l].handle) &&
    (forall h :: 0 <= h < |board| && Kept(board[h], dropUnassigned) ==>
       exists k :: 0 <= k < |recs| && recs[k].handle == h)
  }

  lemma {:induction false} ExtractDescribes(board: seq<Module>, dropUnassigned: bool)
    requires Extract(board, dropUnassigned).Ok?
    ensures Describes(Extract(board, dropUnassigned).value, board, dropUnassigned)
    ensures forall k :: 0 <= k < |Extract(board, dropUnassigned).value| ==>
              Extract(board, dropUnassigned).value[k].compType != []
    decreases |board|
  {
    var recs := Extract(board, dropUnassigned).value;
    if board != [] {
      var n := |board| - 1;
      var p := board[..n];
      ExtractDescribes(p, dropUnassigned);
      var prev := Extract(p, dropUnassigned).value;
      if Kept(board[n], dropUnassigned) {
        assert recs == prev + [ToRecord(board[n], n)];
        DescribesAppend(prev, board, dropUnassigned);
      } else {
        assert recs == prev;
        DescribesSkip(prev, board, dropUnassigned);
      }
    }
    ExtractSucceeds(board, dropUnassigned);
    forall k | 0 <= k < |recs| ensures recs[k].compType != [] {
      assert Extractable(board[recs[k].handle], dropUnassigned);
    }
  }

  lemma DescribesSkip(prev: seq<Record>, board: seq<Module>, dropUnassigned: bool)
    requires board != [] && !Kept(board[|board| - 1], dropUnassigned)
    requires Describes(prev, board[..|board| - 1], dropUnassigned)
    ensures Describes(prev, board, dropUnassigned)
  {
    var n := |board| - 1;
    assert forall j :: 0 <= j < n ==> board[..n][j] == board[j];
  }

  lemma DescribesAppend(prev: seq<Record>, board: seq<Module>, dropUnassigned: bool)
    requires board != [] && Kept(board[|board| - 1], dropUnassigned)
    requires Describes(prev, board[..|board| - 1], dropUnassigned)
    ensures Describes(prev + [ToRecord(board[|board| - 1], |board| - 1)], board, dropUnassigned)
  {
    var n := |board| - 1;
    var recs := prev + [ToRecord(board[n], n)];
    assert forall j :: 0 <= j < n ==> board[..n][j] == board[j];
    forall h | 0 <= h < |board| && Kept(board[h], dropUnassigned)
      ensures exists k :: 0 <= k < |recs| && recs[k].handle == h
    {
      if h == n {
        assert recs[|prev|].handle == h;
      } else {
        assert board[..n][h] == board[h];
        var k :| 0 <= k < |prev| && prev[k].handle == h;
        assert recs[k].handle == h;
      }
    }
  }

  /** Without the `**` filter (back_annotate.py) every module becomes the record at its own index. */
  lemma {:induction false} ExtractKeepsEveryModule(board: seq<Module>)
    requires Extract(board, false).Ok?
    ensures |Extract(board, false).value| == |board|
    ensures forall k :: 0 <= k < |board| ==> Extract(board, false).value[k] == ToRecord(board[k], k)
    decreases |board|
  {
    if board != [] {
      var n := |board| - 1;
      ExtractKeepsEveryModule(board[..n]);
    }
  }

  // ---------------------------------------------------------------------------
  // scale_records

  function Abs(r: real): real { if r < 0.0 then -r else r }

  /**
   * The running maximum of `scale_records`' first loop, over both
   * coordinates of every record; `-1.0` stands for its `float('-Inf')` start,
   * which every absolute value exceeds.
   */
  function MaxAbs(recs: seq<Record>): (m: real)
    ensures recs == [] ==> m == -1.0
    ensures forall k :: 0 <= k < |recs| ==> Abs(recs[k].x) <= m && Abs(recs[k].y) <= m
    ensures recs != [] ==> exists k :: 0 <= k < |recs| && (m == Abs(recs[k].x) || m == Abs(recs[k].y))
    decreases |recs|
  {
    if recs == [] then -1.0
    else
      var n := |recs| - 1;
      assert forall k :: 0 <= k < n ==> recs[..n][k] == recs[k];
      Max(Max(MaxAbs(recs[..n]), Abs(recs[n].x)), Abs(recs[n].y))
  }

  /** One step of the running maximum: `v` replaces `m` when it is greater. */
  function Max(m: real, v: real): real { if v > m then v else m }

  /** One record divided by the maximum: multiplying back gives the coordinates, and nothing else changes. */
  function Normalise(r: Record, m: real): (n: Record)
    requires m != 0.0
    ensures n.x * m == r.x && n.y * m == r.y
    ensures n.(x := r.x, y := r.y) == r
  {
    r.(x := r.x / m, y := r.y / m)
  }

  /** The records after `scale_records`: an empty list is left alone, and an all-zero one raises ZeroDivisionError at the first division. */
  function Scaled(recs: seq<Record>): Result<seq<Record>>
  {
    if recs == [] then Ok([])
    else if MaxAbs(recs) == 0.0 then Err(ZeroDivisionError)
    else Ok(seq(|recs|, k requires 0 <= k < |recs| => Normalise(recs[k], MaxAbs(recs))))
  }

  /** `scale_records`, dividing the records in place; `ok` is false where Python raises, before anything is written. */
  method ScaleRecords(a: array<Record>) returns (ok: bool)
    modifies a
    ensures ok == Scaled(old(a[..])).Ok?
    ensures ok ==> a[..] == Scaled(old(a[..])).value
    ensures !ok ==> a[..] == old(a[..])
  {
    var maxNumber := MaxCoordinate(a);
    if a.Length > 0 && maxNumber == 0.0 {
      return false;
    }
    if a.Length == 0 {
      return true;
    }
    DivideAll(a, maxNumber);
    ok := true;
  }

  /** The first loop of `scale_records`: the largest magnitude of any coordinate. */
  method MaxCoordinate(a: array<Record>) returns (maxNumber: real)
    ensures maxNumber == MaxAbs(a[..])
  {
    maxNumber := -1.0;
    var i := 0;
    while i < a.Length
      invariant 0 <= i <= a.Length
      invariant maxNumber == MaxAbs(a[..i])
    {
      MaxAbsStep(a[..], i);
      var coord := Abs(a[i].x);
      if coord > maxNumber {
        maxNumber := coord;
      }
      coord := Abs(a[i].y);
      if coord > maxNumber {
        maxNumber := coord;
      }
      i := i + 1;
    }
    assert a[..] == a[..i];
  }

  /** The second loop of `scale_records`: every record's coordinates divided by the maximum. */
  method DivideAll(a: array<Record>, maxNumber: real)
    requires a.Length > 0 && maxNumber == MaxAbs(a[..]) && maxNumber != 0.0
    modifies a
    ensures a[..] == Scaled(old(a[..])).value
  {
    ghost var orig := a[..];
    var i := 0;
    while i < a.Length
      invariant 0 <= i <= a.Length
      invariant forall k :: 0 <= k < i ==> a[k] == Normalise(orig[k], maxNumber)
      invariant forall k :: i <= k < a.Length ==> a[k] == orig[k]
    {
      a[i] := Normalise(a[i], maxNumber);
      i := i + 1;
    }
  }

  lemma MaxAbsStep(recs: seq<Record>, i: nat)
    requires i < |recs|
    ensures MaxAbs(recs[..i + 1]) == Max(Max(MaxAbs(recs[..i]), Abs(recs[i].x)), Abs(recs[i].y))
  {
    assert recs[..i + 1][..i] == recs[..i];
  }

  /** Scaling fails exactly on a non-empty list whose coordinates are all zero. */
  lemma ScaledFails(recs: seq<Record>)
    ensures Scaled(recs).Err?
        <==> recs != [] && forall k :: 0 <= k < |recs| ==> recs[k].x == 0.0 && recs[k].y == 0.0
  {
    if recs != [] && MaxAbs(recs) != 0.0 {
      var k :| 0 <= k < |recs| && (MaxAbs(recs) == Abs(recs[k].x) || MaxAbs(recs) == Abs(recs[k].y));
      assert recs[k].x != 0.0 || recs[k].y != 0.0;
    }
  }

  /**
   * After scaling only the coordinates have changed, every coordinate lies
   * in [-1, 1], and the coordinate of largest magnitude has become +1 or -1.
   */
  lemma ScaledBounds(recs: seq<Record>)
    requires Scaled(recs).Ok?
    ensures |Scaled(recs).value| == |recs|
    ensures forall k :: 0 <= k < |recs| ==>
              Scaled(recs).value[k].(x := recs[k].x, y := recs[k].y) == recs[k]
    ensures forall k :: 0 <= k < |recs| ==>
              -1.0 <= Scaled(recs).value[k].x <= 1.0 && -1.0 <= Scaled(recs).value[k].y <= 1.0
    ensures recs != [] ==>
              exists k :: 0 <= k < |recs| && (Abs(Scaled(recs).value[k].x) == 1.0 || Abs(Scaled(recs).value[k].y) == 1.0)
  {
    if recs != [] {
      var m := MaxAbs(recs);
      var out := Scaled(recs).value;
      assert m > 0.0;
      forall k | 0 <= k < |recs|
        ensures -1.0 <= out[k].x <= 1.0 && -1.0 <= out[k].y <= 1.0
      {
        DivideBounded(recs[k].x, m);
        DivideBounded(recs[k].y, m);
      }
      var k :| 0 <= k < |recs| && (m == Abs(recs[k].x) || m == Abs(recs[k].y));
      DivideBounded(recs[k].x, m);
      DivideBounded(recs[k].y, m);
    }
  }

  lemma DivideBounded(v: real, m: real)
    requires m > 0.0 && Abs(v) <= m
    ensures -1.0 <= v / m <= 1.0
    ensures Abs(v) == m ==> Abs(v / m) == 1.0
  {
    if v >= 0.0 {
      assert v / m * m == v;
    } else {
      assert (-v) / m * m == -v;
      assert v / m == -((-v) / m);
    }
  }

  // ---------------------------------------------------------------------------
  // sort_records

  /** Python 2's `round` to an integer: to the nearest one, halves away from zero. */
  function Round(r: real): (n: int)
    ensures (n as real) - 0.5 <= r <= (n as real) + 0.5
    ensures r >= 0.0 ==> n >= 0
  {
    if r >= 0.0 then (r + 0.5).Floor else -((0.5 - r).Floor)
  }

  /** The sort key `(flipped, comp_type, 8*qx + qy, qy)`. */
  datatype SortKey = SortKey(flipped: bool, compType: string, sweep: int, row: int)

  /**
   * The key `sort_records` computes. Its local named `comp_type` holds the
   * flip flag and `comp_side` the type, so the side comes first.
   */
  function KeyOf(r: Record, mult: int): (k: SortKey)
    ensures k.flipped == r.flipped && k.compType == r.compType
    ensures (k.row as real) - 0.5 <= mult as real * r.y <= (k.row as real) + 0.5
    ensures (k.sweep - k.row) % 8 == 0
    ensures ((k.sweep - k.row) / 8) as real - 0.5 <= mult as real * r.x <= ((k.sweep - k.row) / 8) as real + 0.5
  {
    var qx := Round(mult as real * r.x);
    var qy := Round(mult as real * r.y);
    SortKey(r.flipped, r.compType, 8 * qx + qy, qy)
  }

  /** Python's order on the key tuples: `False < True`, then strings, then the integers. */
  predicate KeyLt(a: SortKey, b: SortKey)
  {
    (!a.flipped && b.flipped) ||
    (a.flipped == b.flipped &&
      (StrLt(a.compType, b.compType) ||
       (a.compType == b.compType &&
         (a.sweep < b.sweep || (a.sweep == b.sweep && a.row < b.row)))))
  }

  predicate KeyLe(a: SortKey, b: SortKey) { a == b || KeyLt(a, b) }

  lemma KeyLeTotalOrder()
    ensures forall a, b :: KeyLe(a, b) || KeyLe(b, a)
    ensures forall a, b :: KeyLe(a, b) && KeyLe(b, a) ==> a == b
    ensures forall a, b, c :: KeyLe(a, b) && KeyLe(b, c) ==> KeyLe(a, c)
  {
    StrLeTotalOrder();
    forall a, b ensures KeyLe(a, b) || KeyLe(b, a) {
      StrLtTotal(a.compType, b.compType);
    }
    forall a, b | KeyLe(a, b) && KeyLe(b, a) ensures a == b {
      StrLtIrreflexive(a.compType);
      if a.compType != b.compType && a.flipped == b.flipped {
        StrLtAsymmetric(a.compType, b.compType);
        StrLtAsymmetric(b.compType, a.compType);
      }
    }
    forall a, b, c | KeyLe(a, b) && KeyLe(b, c) ensures KeyLe(a, c) {
      if StrLt(a.compType, b.compType) && StrLt(b.compType, c.compType) {
        StrLtTransitive(a.compType, b.compType, c.compType);
      }
    }
  }

  /** Records compared by their keys. */
  function RecordLe(mult: int): (Record, Record) -> bool
  {
    (a: Record, b: Record) => KeyLe(KeyOf(a, mult), KeyOf(b, mult))
  }

  lemma RecordLePreorder(mult: int)
    ensures TotalPreorder(RecordLe(mult))
  {
    KeyLeTotalOrder();
  }

  /** `sort_records(records, mult)`: Python's stable `sorted` by the key. */
  function SortRecords(recs: seq<Record>, mult: int): (sorted: seq<Record>)
    ensures |sorted| == |recs| && multiset(sorted) == multiset(recs)
  {
    SortBy(recs, RecordLe(mult))
  }

  /**
   * The sorted records are a permutation of the input, ascending in the key
   * (so every top-side record precedes every bottom-side one), and records
   * with equal keys keep their input order.
   */
  lemma SortRecordsSpec(recs: seq<Record>, mult: int)
    ensures multiset(SortRecords(recs, mult)) == multiset(recs)
    ensures forall i, j :: 0 <= i < j < |recs| ==>
              KeyLe(KeyOf(SortRecords(recs, mult)[i], mult), KeyOf(SortRecords(recs, mult)[j], mult))
    ensures forall i, j :: 0 <= i < j < |recs| ==>
              !(SortRecords(recs, mult)[i].flipped && !SortRecords(recs, mult)[j].flipped)
    ensures forall z :: Peers(SortRecords(recs, mult), z, RecordLe(mult)) == Peers(recs, z, RecordLe(mult))
  {
    RecordLePreorder(mult);
    SortBySorted(recs, RecordLe(mult));
    forall z ensures Peers(SortRecords(recs, mult), z, RecordLe(mult)) == Peers(recs, z, RecordLe(mult)) {
      SortByStable(recs, z, RecordLe(mult));
    }
  }

  /** Records with the same key are peers, and only those. */
  lemma PeersShareKey(a: Record, b: Record, mult: int)
    ensures Equiv(RecordLe(mult), a, b) <==> KeyOf(a, mult) == KeyOf(b, mult)
  {
    KeyLeTotalOrder();
  }

  // ---------------------------------------------------------------------------
  // calculate_remaps

  /** The `index` `calculate_remaps` reaches at record `i`: it restarts at 1 whenever the type changes. */
  function RunIndex(recs: seq<Record>, i: nat): (k: nat)
    requires i < |recs|
    ensures 1 <= k <= i + 1
  {
    if i == 0 || recs[i - 1].compType != recs[i].compType then 1 else RunIndex(recs, i - 1) + 1
  }

  /** `comp_type + str(index)`. */
  function NewRef(recs: seq<Record>, i: nat): string
    requires i < |recs|
  {
    recs[i].compType + Dec(RunIndex(recs, i))
  }

  /** A new designator is the type followed by the running index in decimal, without leading zero. */
  lemma NewRefParts(recs: seq<Record>, i: nat)
    requires i < |recs|
    ensures var ref, t := NewRef(recs, i), recs[i].compType;
            |ref| > |t| && ref[..|t|] == t && AllDigits(ref[|t|..]) && ref[|t|] != '0'
            && Value(ref[|t|..]) == RunIndex(recs, i)
  {
    var t, n := recs[i].compType, RunIndex(recs, i);
    ValueDec(n);
    assert (t + Dec(n))[|t|..] == Dec(n);
  }

  /** The records after `calculate_remaps`. */
  function Remapped(recs: seq<Record>): (out: seq<Record>)
    ensures |out| == |recs|
  {
    seq(|recs|, i requires 0 <= i < |recs| => recs[i].(newRef := Some(NewRef(recs, i))))
  }

  /** `calculate_remaps`, appending the new designator to every record in place. */
  method CalculateRemaps(a: array<Record>)
    modifies a
    ensures a[..] == Remapped(old(a[..]))
  {
    ghost var orig := a[..];
    var compType: string := "";
    var index: nat := 0;
    for x := 0 to a.Length
      invariant forall k :: 0 <= k < x ==> a[k] == Remapped(orig)[k]
      invariant forall k :: x <= k < a.Length ==> a[k] == orig[k]
      invariant x == 0 ==> compType == "" && index == 0
      invariant x > 0 ==> compType == orig[x - 1].compType && index == RunIndex(orig, x - 1)
    {
      if a[x].compType != compType {
        compType := a[x].compType;
        index := 0;
      }
      index := index + 1;
      assert index == RunIndex(orig, x);
      ghost var want := Remapped(orig)[x];
      assert want == orig[x].(newRef := Some(compType + Dec(index)));
      a[x] := a[x].(newRef := Some(compType + Dec(index)));
    }
  }

  /**
   * Renumbering keeps the number and order of the records and every field,
   * and gives each record its type followed by a positive decimal number
   * without leading zeros.
   */
  lemma RemappedShape(recs: seq<Record>)
    ensures |Remapped(recs)| == |recs|
    ensures forall i :: 0 <= i < |recs| ==> Remapped(recs)[i].(newRef := recs[i].newRef) == recs[i]
    ensures forall i :: 0 <= i < |recs| ==>
              var t := recs[i].compType;
              var n := Remapped(recs)[i].newRef;
              n.Some? && |n.value| > |t| && n.value[..|t|] == t
              && AllDigits(n.value[|t|..]) && n.value[|t|] != '0'
  {
    forall i | 0 <= i < |recs|
      ensures var t := recs[i].compType; var n := Remapped(recs)[i].newRef;
              n.Some? && |n.value| > |t| && n.value[..|t|] == t
              && AllDigits(n.value[|t|..]) && n.value[|t|] != '0'
    {
      var t := recs[i].compType;
      var d := Dec(RunIndex(recs, i));
      var v := t + d;
      assert v[..|t|] == t && v[|t|..] == d;
    }
  }

  /** `recs[s..e]` is one type, and `s` is where that type starts. */
  predicate RunOf(recs: seq<Record>, s: nat, e: nat)
  {
    s < e <= |recs| && (s == 0 || recs[s - 1].compType != recs[s].compType)
    && forall i :: s <= i < e ==> recs[i].compType == recs[s].compType
  }

  /** Within a run of one type the numbers are 1, 2, 3, ... in list order. */
  lemma {:induction false} RunNumbering(recs: seq<Record>, s: nat, e: nat)
    requires RunOf(recs, s, e)
    ensures forall i :: s <= i < e ==> RunIndex(recs, i) == i - s + 1
    ensures forall i :: s <= i < e ==> Remapped(recs)[i].newRef == Some(recs[s].compType + Dec(i - s + 1))
    decreases e
  {
    if e > s + 1 {
      RunNumbering(recs, s, e - 1);
      assert recs[e - 2].compType == recs[e - 1].compType;
      assert RunIndex(recs, e - 1) == RunIndex(recs, e - 2) + 1;
    }
    forall i | s <= i < e
      ensures Remapped(recs)[i].newRef == Some(recs[s].compType + Dec(i - s + 1))
    {
      assert Remapped(recs)[i].newRef == Some(NewRef(recs, i));
    }
  }

  /** A type of letters followed by a decimal number splits back into the two. */
  lemma {:induction false} DesignatorParts(t: string, m: nat, u: string, n: nat)
    requires AllLetters(t) && AllLetters(u)
    requires t + Dec(m) == u + Dec(n)
    ensures t == u && m == n
  {
    var l, r := t + Dec(m), u + Dec(n);
    LeadingLettersOf(t, Dec(m));
    LeadingLettersOf(u, Dec(n));
    assert Dec(m) == l[|t|..] && Dec(n) == r[|u|..];
    DecInjective(m, n);
  }

  lemma {:induction false} LeadingLettersOf(t: string, d: string)
    requires AllLetters(t) && d != [] && !IsLetter(d[0])
    ensures LeadingLetters(t + d) == t
    decreases |t|
  {
    if t != [] {
      assert (t + d)[1..] == t[1..] + d;
      LeadingLettersOf(t[1..], d);
    }
  }

  /** The numbers of a type grow by one from record to record while the type lasts. */
  lemma {:induction false} RunIndexStep(recs: seq<Record>, i: nat, j: nat)
    requires i <= j < |recs|
    requires forall k :: i <= k <= j ==> recs[k].compType == recs[i].compType
    ensures RunIndex(recs, j) == RunIndex(recs, i) + (j - i)
    decreases j
  {
    if j > i {
      RunIndexStep(recs, i, j - 1);
    }
  }

  /** Where the run holding record `i` starts. */
  function RunStart(recs: seq<Record>, i: nat): (s: nat)
    requires i < |recs|
    ensures s <= i && RunIndex(recs, s) == 1
    ensures forall k :: s <= k <= i ==> recs[k].compType == recs[i].compType
  {
    if i == 0 || recs[i - 1].compType != recs[i].compType then i else RunStart(recs, i - 1)
  }

  /** Every type occupies one stretch of the list. */
  predicate Contiguous(recs: seq<Record>)
  {
    forall i, j, k :: 0 <= i < j < k < |recs| && recs[i].compType == recs[k].compType ==>
      recs[j].compType == recs[i].compType
  }

  predicate AllLetters(s: string) { forall i :: 0 <= i < |s| ==> IsLetter(s[i]) }

  /**
   * The new designators are all different exactly when every type forms a
   * single run; a type split by another one is numbered from 1 again.
   */
  lemma NewRefsDistinctIffContiguous(recs: seq<Record>)
    requires forall i :: 0 <= i < |recs| ==> AllLetters(recs[i].compType)
    ensures (forall i, j :: 0 <= i < j < |recs| ==> NewRef(recs, i) != NewRef(recs, j))
        <==> Contiguous(recs)
  {
    if Contiguous(recs) {
      forall i, j | 0 <= i < j < |recs| ensures NewRef(recs, i) != NewRef(recs, j) {
        if NewRef(recs, i) == NewRef(recs, j) {
          DesignatorParts(recs[i].compType, RunIndex(recs, i), recs[j].compType, RunIndex(recs, j));
          RunIndexStep(recs, i, j);
        }
      }
    } else {
      var i, j, k :| 0 <= i < j < k < |recs| && recs[i].compType == recs[k].compType
                     && recs[j].compType != recs[i].compType;
      var s1, s2 := RunStart(recs, i), RunStart(recs, k);
      assert s2 > j;
      assert NewRef(recs, s1) == NewRef(recs, s2);
    }
  }

  /**
   * On a board where no type has parts on both sides, the sorted order keeps
   * every type in one run, so the new designators are all different.
   */
  lemma DistinctWhenTypesOneSided(recs: seq<Record>, mult: int)
    requires forall i :: 0 <= i < |recs| ==> AllLetters(recs[i].compType)
    requires forall i, j :: 0 <= i < |recs| && 0 <= j < |recs| && recs[i].compType == recs[j].compType
               ==> recs[i].flipped == recs[j].flipped
    ensures var sorted := SortRecords(recs, mult);
            forall i, j :: 0 <= i < j < |sorted| ==> NewRef(sorted, i) != NewRef(sorted, j)
  {
    var sorted := SortRecords(recs, mult);
    SortRecordsSpec(recs, mult);
    SortedLettersOneSided(recs, sorted);
    SortedContiguous(sorted, mult);
    NewRefsDistinctIffContiguous(sorted);
  }

  /** A permutation keeps letter-only types and one side per type. */
  lemma SortedLettersOneSided(recs: seq<Record>, sorted: seq<Record>)
    requires multiset(sorted) == multiset(recs)
    requires forall i :: 0 <= i < |recs| ==> AllLetters(recs[i].compType)
    requires forall i, j :: 0 <= i < |recs| && 0 <= j < |recs| && recs[i].compType == recs[j].compType
               ==> recs[i].flipped == recs[j].flipped
    ensures forall i :: 0 <= i < |sorted| ==> AllLetters(sorted[i].compType)
    ensures forall i, j :: 0 <= i < |sorted| && 0 <= j < |sorted| && sorted[i].compType == sorted[j].compType
              ==> sorted[i].flipped == sorted[j].flipped
  {
    forall i | 0 <= i < |sorted| ensures sorted[i] in recs {
      assert sorted[i] in multiset(sorted);
    }
  }

  /** Sorted by key with one side per type, each type forms one run. */
  lemma SortedContiguous(sorted: seq<Record>, mult: int)
    requires forall i, j :: 0 <= i < j < |sorted| ==> KeyLe(KeyOf(sorted[i], mult), KeyOf(sorted[j], mult))
    requires forall i, j :: 0 <= i < |sorted| && 0 <= j < |sorted| && sorted[i].compType == sorted[j].compType
               ==> sorted[i].flipped == sorted[j].flipped
    ensures Contiguous(sorted)
  {
    KeyLeTotalOrder();
    StrLeTotalOrder();
    forall i, j, k | 0 <= i < j < k < |sorted| && sorted[i].compType == sorted[k].compType
      ensures sorted[j].compType == sorted[i].compType
    {
      var a, b, c := KeyOf(sorted[i], mult), KeyOf(sorted[j], mult), KeyOf(sorted[k], mult);
      assert KeyLe(a, b) && KeyLe(b, c);
      assert a.flipped == b.flipped;
      assert StrLe(a.compType, b.compType) && StrLe(b.compType, c.compType);
    }
  }

  /**
   * Because the side is compared before the type, a type with parts on both
   * sides and another type between them is numbered twice: a top `C`, a top
   * `R` and a bottom `C` at the same place become `C1`, `R1` and `C1`.
   */
  lemma SideFirstNumberingRepeats()
    ensures var recs := [Record("C7", 0.0, 0.0, true, "C", 0, None),
                         Record("R3", 0.0, 0.0, false, "R", 1, None),
                         Record("C4", 0.0, 0.0, false, "C", 2, None)];
            var out := Remapped(SortRecords(recs, 100));
            out[0].newRef == out[2].newRef == Some("C1") && out[1].newRef == Some("R1")
  {
    var c7 := Record("C7", 0.0, 0.0, true, "C", 0, None);
    var r3 := Record("R3", 0.0, 0.0, false, "R", 1, None);
    var c4 := Record("C4", 0.0, 0.0, false, "C", 2, None);
    ExampleOrder(c7, r3, c4);
    assert SortRecords([c7, r3, c4], 100) == [c4, r3, c7];
    ExampleNumbering([c4, r3, c7]);
  }

  /** Numbering `C`, `R`, `C` in this order restarts the count for the second `C`. */
  lemma ExampleNumbering(sorted: seq<Record>)
    requires |sorted| == 3
    requires sorted[0].compType == "C" && sorted[1].compType == "R" && sorted[2].compType == "C"
    ensures var out := Remapped(sorted);
            out[0].newRef == out[2].newRef == Some("C1") && out[1].newRef == Some("R1")
  {
    assert Dec(1) == "1";
    assert RunIndex(sorted, 0) == 1 && RunIndex(sorted, 1) == 1 && RunIndex(sorted, 2) == 1;
    assert NewRef(sorted, 0) == "C1" && NewRef(sorted, 1) == "R1" && NewRef(sorted, 2) == "C1";
    var out := Remapped(sorted);
    assert out[0] == sorted[0].(newRef := Some(NewRef(sorted, 0)));
    assert out[1] == sorted[1].(newRef := Some(NewRef(sorted, 1)));
    assert out[2] == sorted[2].(newRef := Some(NewRef(sorted, 2)));
  }

  lemma ExampleOrder(c7: Record, r3: Record, c4: Record)
    requires c7 == Record("C7", 0.0, 0.0, true, "C", 0, None)
    requires r3 == Record("R3", 0.0, 0.0, false, "R", 1, None)
    requires c4 == Record("C4", 0.0, 0.0, false, "C", 2, None)
    ensures SortBy([c7, r3, c4], RecordLe(100)) == [c4, r3, c7]
  {
    var le := RecordLe(100);
    ExampleComparisons(c7, r3, c4);
    SortTwoSwapped(r3, c4, le);
    InsertAfterTwo(c7, c4, r3, le);
    assert [c7, r3, c4][1..] == [r3, c4];
  }

  /** How the three example records compare: bottom after top, and `C` before `R`. */
  lemma ExampleComparisons(c7: Record, r3: Record, c4: Record)
    requires c7 == Record("C7", 0.0, 0.0, true, "C", 0, None)
    requires r3 == Record("R3", 0.0, 0.0, false, "R", 1, None)
    requires c4 == Record("C4", 0.0, 0.0, false, "C", 2, None)
    ensures var le := RecordLe(100); le(c4, r3) && !le(r3, c4) && !le(c7, c4) && !le(c7, r3)
  {
    KeyAtOrigin(c7, 100);
    KeyAtOrigin(r3, 100);
    KeyAtOrigin(c4, 100);
    assert StrLt("C", "R");
    StrLtAsymmetric("C", "R");
  }

  lemma SortTwoSwapped<T>(x: T, y: T, le: (T, T) -> bool)
    requires le(y, x) && !le(x, y)
    ensures SortBy([x, y], le) == [y, x]
  {
    assert [x, y][1..] == [y];
    assert SortBy([y], le) == [y];
  }

  lemma InsertAfterTwo<T>(z: T, x: T, y: T, le: (T, T) -> bool)
    requires !le(z, x) && !le(z, y)
    ensures Insert(z, [x, y], le) == [x, y, z]
  {
    assert [x, y][1..] == [y];
    assert Insert(z, [y], le) == [y, z];
  }

  lemma KeyAtOrigin(r: Record, mult: int)
    requires r.x == 0.0 && r.y == 0.0
    ensures KeyOf(r, mult) == SortKey(r.flipped, r.compType, 0, 0)
  {
    assert mult as real * 0.0 == 0.0;
    assert Round(0.0) == 0;
  }
}
