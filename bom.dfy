/**
 * The BOM exporter of kicad/bom_export.py: components with the same fields
 * are grouped into one line item, each line item gets the sorted list of its
 * designators and its quantity, the line items are ordered by designator list
 * and numbered, and every line item becomes one tab-separated row.
 */
module Bom {
  import opened Results
  import opened Text
  import opened StableSort
  import opened Dicts
  import opened Refdes

  // ---------------------------------------------------------------------------
  // The descriptor: a component's fields as one string

  /** Entries ordered by key; with distinct keys, the value never decides. */
  function EntryLe(a: Entry, b: Entry): bool
  {
    StrLt(a.0, b.0) || (a.0 == b.0 && StrLe(a.1, b.1))
  }

  lemma EntryLeOrder()
    ensures TotalPreorder(EntryLe)
    ensures forall a, b :: EntryLe(a, b) && EntryLe(b, a) ==> a == b
  {
    StrLeTotalOrder();
    forall a: Entry, b: Entry ensures EntryLe(a, b) || EntryLe(b, a) {
      StrLtTotal(a.0, b.0);
    }
    forall a: Entry, b: Entry, c: Entry | EntryLe(a, b) && EntryLe(b, c) ensures EntryLe(a, c) {
      if StrLt(a.0, b.0) && StrLt(b.0, c.0) {
        StrLtTransitive(a.0, b.0, c.0);
      }
    }
    forall a: Entry, b: Entry | EntryLe(a, b) && EntryLe(b, a) ensures a == b {
      if StrLt(a.0, b.0) {
        StrLtAsymmetric(a.0, b.0);
      } else if StrLt(b.0, a.0) {
        StrLtAsymmetric(b.0, a.0);
      }
    }
  }

  /** `"%s\f%s" % (key, value)`. */
  function EntryField(e: Entry): string
  {
    e.0 + "\U{C}" + e.1
  }

  /** The descriptor of a component without its designator: its fields by key, tab-separated. */
  function Descriptor(d: Dict): string
  {
    Join(MapSeq(EntryField, SortBy(d, EntryLe)), "\t")
  }

  /** What the loop appends: each field followed by a tab. */
  function Terminated(fs: seq<string>): string
    decreases |fs|
  {
    if fs == [] then [] else Terminated(fs[..|fs| - 1]) + fs[|fs| - 1] + "\t"
  }

  lemma {:induction false} JoinSnoc(fs: seq<string>, x: string, sep: string)
    requires fs != []
    ensures Join(fs + [x], sep) == Join(fs, sep) + sep + x
    decreases |fs|
  {
    if |fs| == 1 {
      assert fs + [x] == [fs[0], x];
    } else {
      assert (fs + [x])[1..] == fs[1..] + [x];
      JoinSnoc(fs[1..], x, sep);
    }
  }

  /** Dropping the last tab of the appended fields leaves the fields joined by tabs. */
  lemma {:induction false} TerminatedJoin(fs: seq<string>)
    requires fs != []
    ensures Terminated(fs) == Join(fs, "\t") + "\t"
    decreases |fs|
  {
    var init, x := fs[..|fs| - 1], fs[|fs| - 1];
    if init == [] {
      assert fs == [x];
    } else {
      TerminatedJoin(init);
      assert fs == init + [x];
      JoinSnoc(init, x, "\t");
    }
  }

  /** The descriptor loop of `group_items`: append each sorted field and a tab, then drop the last character. */
  method BuildDescriptor(d: Dict) returns (descriptor: string)
    ensures descriptor == Descriptor(d)
  {
    var entries := SortBy(d, EntryLe);
    ghost var fs := MapSeq(EntryField, entries);
    descriptor := "";
    var i := 0;
    while i < |entries|
      invariant 0 <= i <= |entries|
      invariant descriptor == Terminated(fs[..i])
    {
      TerminatedStep(fs, i, entries[i]);
      descriptor := descriptor + entries[i].0 + "\U{C}" + entries[i].1 + "\t";
      i := i + 1;
    }
    assert fs[..i] == fs;
    DropLastTab(fs);
    descriptor := if descriptor == [] then [] else descriptor[..|descriptor| - 1];
  }

  lemma TerminatedStep(fs: seq<string>, i: nat, e: Entry)
    requires i < |fs| && fs[i] == EntryField(e)
    ensures Terminated(fs[..i + 1]) == Terminated(fs[..i]) + e.0 + "\U{C}" + e.1 + "\t"
  {
    assert fs[..i + 1][..i] == fs[..i];
  }

  /** `[:-1]` of the appended fields is the fields joined by tabs, also when there are none. */
  lemma DropLastTab(fs: seq<string>)
    ensures var t := Terminated(fs); (if t == [] then [] else t[..|t| - 1]) == Join(fs, "\t")
  {
    if fs != [] {
      TerminatedJoin(fs);
      var t := Terminated(fs);
      assert t[..|t| - 1] == Join(fs, "\t");
    }
  }

  // ---------------------------------------------------------------------------
  // Decoding a descriptor back into fields

  /** `param = x.split('\f')` and then `param[0]`, `param[1]`. */
  function DecodeParam(p: string): (r: Result<Entry>)
    ensures r.Err? ==> r.failure == IndexError
  {
    var parts := Split(p, '\U{C}');
    if |parts| < 2 then Err(IndexError) else Ok((parts[0], parts[1]))
  }

  /** The loop `fields[param[0]] = param[1]` over the tab-separated parameters. */
  function SetAll(params: seq<string>): (r: Result<Dict>)
    ensures r.Err? ==> r.failure == IndexError
    decreases |params|
  {
    if params == [] then Ok([])
    else
      var fields :- SetAll(params[..|params| - 1]);
      var e :- DecodeParam(params[|params| - 1]);
      Ok(Set(fields, e.0, e.1))
  }

  /** The fields a line item is built from: `key.split('\t')`, each split at `\f`. */
  function Decode(descriptor: string): Result<Dict>
  {
    SetAll(Split(descriptor, '\t'))
  }

  /** The text of a field has neither separator in it. */
  predicate Clean(d: Dict)
  {
    KeysDistinct(d) && forall i :: 0 <= i < |d| ==> '\t' !in d[i].0 + d[i].1 && '\U{C}' !in d[i].0 + d[i].1
  }

  lemma DecodeEntry(e: Entry)
    requires '\U{C}' !in e.0 + e.1
    ensures DecodeParam(EntryField(e)) == Ok(e)
  {
    assert '\U{C}' !in e.0 && '\U{C}' !in e.1 by {
      assert forall c :: c in e.0 ==> c in e.0 + e.1;
      assert forall c :: c in e.1 ==> c in e.0 + e.1;
    }
    SplitJoin([e.0, e.1], '\U{C}');
    assert Join([e.0, e.1], "\U{C}") == EntryField(e);
  }

  lemma {:induction false} SetAllFields(es: seq<Entry>)
    requires Clean(es)
    ensures SetAll(MapSeq(EntryField, es)) == Ok(es)
    decreases |es|
  {
    if es != [] {
      var n := |es| - 1;
      var init, e := es[..n], es[n];
      var fs := MapSeq(EntryField, es);
      CleanInit(es);
      SetAllFields(init);
      MapSeqPrefix(EntryField, es, n);
      DecodeEntry(e);
      SetAllSnoc(fs, init, e);
      SetLast(es);
    }
  }

  /** Storing the last entry of a dict into the rest rebuilds the dict. */
  lemma SetLast(es: seq<Entry>)
    requires es != [] && !HasKey(es[..|es| - 1], es[|es| - 1].0)
    ensures Set(es[..|es| - 1], es[|es| - 1].0, es[|es| - 1].1) == es
  {
    assert es == es[..|es| - 1] + [es[|es| - 1]];
  }

  /** One more parameter decoded and stored. */
  lemma SetAllSnoc(params: seq<string>, fields: Dict, e: Entry)
    requires params != [] && SetAll(params[..|params| - 1]) == Ok(fields)
    requires DecodeParam(params[|params| - 1]) == Ok(e)
    ensures SetAll(params) == Ok(Set(fields, e.0, e.1))
  {
  }

  /** Without its last entry a clean dict is clean and lacks the last key. */
  lemma CleanInit(es: seq<Entry>)
    requires Clean(es) && es != []
    ensures Clean(es[..|es| - 1])
    ensures !HasKey(es[..|es| - 1], es[|es| - 1].0)
    ensures '\U{C}' !in es[|es| - 1].0 + es[|es| - 1].1
  {
    var init := es[..|es| - 1];
    assert forall i :: 0 <= i < |init| ==> init[i] == es[i];
  }

  lemma CleanSorted(d: Dict)
    requires Clean(d)
    ensures Clean(SortBy(d, EntryLe))
  {
    var s := SortBy(d, EntryLe);
    forall i | 0 <= i < |s| ensures s[i] in d {
      assert s[i] in multiset(d);
    }
    forall i, j | 0 <= i < j < |s| ensures s[i].0 != s[j].0 {
      DistinctOnce(d, s[i]);
      MultisetTwice(s, i, j);
      var a :| 0 <= a < |d| && d[a] == s[i];
      var b :| 0 <= b < |d| && d[b] == s[j];
      assert a != b;
    }
  }

  /** A value at two places of `s` occurs twice in its multiset. */
  lemma MultisetTwice<T>(s: seq<T>, i: nat, j: nat)
    requires i < j < |s|
    ensures s[i] == s[j] ==> multiset(s)[s[i]] >= 2
  {
    if s[i] == s[j] {
      assert s == s[..i] + [s[i]] + s[i + 1..j] + [s[j]] + s[j + 1..];
    }
  }

  /** In a sequence without repetitions every value occurs at most once. */
  lemma {:induction false} DistinctOnce<T>(s: seq<T>, x: T)
    requires forall i, j :: 0 <= i < j < |s| ==> s[i] != s[j]
    ensures multiset(s)[x] <= 1
    decreases |s|
  {
    if s != [] {
      DistinctOnce(s[1..], x);
      assert s == [s[0]] + s[1..];
      assert s[0] !in s[1..] by {
        forall k | 0 <= k < |s[1..]| ensures s[1..][k] != s[0] {
          assert s[1..][k] == s[k + 1];
        }
      }
    }
  }

  /**
   * Decoding a descriptor gives back the component's fields, ordered by key,
   * when neither separator occurs in them and there is at least one.
   */
  lemma DescriptorRoundTrip(d: Dict)
    requires Clean(d) && d != []
    ensures Decode(Descriptor(d)) == Ok(SortBy(d, EntryLe))
  {
    var es := SortBy(d, EntryLe);
    CleanSorted(d);
    var fs := MapSeq(EntryField, es);
    forall i | 0 <= i < |fs| ensures '\t' !in fs[i] {
      assert fs[i] == es[i].0 + "\U{C}" + es[i].1;
      assert forall c :: c in fs[i] ==> c in es[i].0 + es[i].1 || c == '\U{C}';
    }
    SplitJoin(fs, '\t');
    SetAllFields(es);
  }

  /** A component with no field but its designator gives the empty descriptor, whose decoding fails. */
  lemma EmptyDescriptorFails()
    ensures Descriptor([]) == ""
    ensures Decode("") == Err(IndexError)
  {
    assert Split("", '\t') == [""];
    assert Split("", '\U{C}') == [""];
    assert SetAll([""]) == Err(IndexError) by {
      assert [""][..0] == [];
    }
  }

  /**
   * Two components share a descriptor, and so a line item, exactly when they
   * have the same fields.
   */
  lemma SameDescriptor(d1: Dict, d2: Dict)
    requires Clean(d1) && Clean(d2)
    ensures Descriptor(d1) == Descriptor(d2) <==> multiset(d1) == multiset(d2)
  {
    EntryLeOrder();
    SortBySorted(d1, EntryLe);
    SortBySorted(d2, EntryLe);
    if multiset(d1) == multiset(d2) {
      SortedUnique(SortBy(d1, EntryLe), SortBy(d2, EntryLe), EntryLe);
    }
    if Descriptor(d1) == Descriptor(d2) {
      if d1 != [] && d2 != [] {
        DescriptorRoundTrip(d1);
        DescriptorRoundTrip(d2);
      } else {
        DescriptorEmpty(d1);
        DescriptorEmpty(d2);
      }
    }
  }

  lemma DescriptorEmpty(d: Dict)
    ensures Descriptor(d) == "" <==> d == []
  {
    var es := SortBy(d, EntryLe);
    if d != [] {
      var fs := MapSeq(EntryField, es);
      assert |fs| >= 1;
      assert '\U{C}' in fs[0];
      if |fs| == 1 {
        assert Join(fs, "\t") == fs[0];
      } else {
        assert Join(fs, "\t") == fs[0] + "\t" + Join(fs[1..], "\t");
      }
    }
  }

  /** The parameter loop of `group_items`: split each parameter at `\f` and store it. */
  method DecodeFields(key: string) returns (r: Result<Dict>)
    ensures r == Decode(key)
  {
    var params := Split(key, '\t');
    var fields: Dict := [];
    var i := 0;
    while i < |params|
      invariant 0 <= i <= |params|
      invariant SetAll(params[..i]) == Ok(fields)
    {
      assert params[..i + 1][..i] == params[..i];
      var param := Split(params[i], '\U{C}');
      if |param| < 2 {
        SetAllStops(params, i);
        return Err(IndexError);
      }
      fields := Set(fields, param[0], param[1]);
      i := i + 1;
    }
    assert params[..i] == params;
    return Ok(fields);
  }

  lemma {:induction false} SetAllStops(params: seq<string>, i: nat)
    requires i < |params| && DecodeParam(params[i]).Err?
    ensures SetAll(params) == Err(IndexError)
    decreases |params|
  {
    var n := |params| - 1;
    if i < n {
      assert params[..n][i] == params[i];
      SetAllStops(params[..n], i);
    }
  }

  // ---------------------------------------------------------------------------
  // Grouping components into line items

  /** `line_dict`: each descriptor with the designators of its components, in the order first seen. */
  type Lines = seq<(string, seq<string>)>

  function LineOf(lines: Lines, desc: string): (r: Option<nat>)
    ensures r.Some? ==> r.value < |lines| && lines[r.value].0 == desc
    ensures r.None? ==> forall k :: 0 <= k < |lines| ==> lines[k].0 != desc
    decreases |lines|
  {
    if lines == [] then None
    else if lines[|lines| - 1].0 == desc then Some(|lines| - 1)
    else LineOf(lines[..|lines| - 1], desc)
  }

  /** `line_dict[descriptor] = line_dict[descriptor] + [refdes]`, creating the entry when it is new. */
  function AddRef(lines: Lines, desc: string, ref: string): Lines
  {
    match LineOf(lines, desc)
    case Some(k) => lines[k := (desc, lines[k].1 + [ref])]
    case None => lines + [(desc, [ref])]
  }

  /** The descriptor of a component once its designator is popped. */
  function KeyOf(c: Dict): string
  {
    Descriptor(Remove(c, "refdes"))
  }

  function RefOf(c: Dict): string
  {
    match Get(c, "refdes")
    case Some(v) => v
    case None => ""
  }

  /** The first loop of `group_items`: pop each designator and file it under its descriptor. */
  function Collect(cs: seq<Dict>): (r: Result<Lines>)
    ensures r.Err? ==> r.failure == KeyError
    decreases |cs|
  {
    if cs == [] then Ok([])
    else
      var lines :- Collect(cs[..|cs| - 1]);
      var popped :- Pop(cs[|cs| - 1], "refdes");
      Ok(AddRef(lines, Descriptor(popped.1), popped.0))
  }

  predicate AllDesignated(cs: seq<Dict>)
  {
    forall i :: 0 <= i < |cs| ==> HasKey(cs[i], "refdes")
  }

  /** A component as the first loop sees it: its descriptor and its designator. */
  function Keyed(c: Dict): (string, string)
  {
    (KeyOf(c), RefOf(c))
  }

  /** Filing (descriptor, designator) pairs one after the other. */
  function Group(ps: seq<(string, string)>): Lines
    decreases |ps|
  {
    if ps == [] then []
    else
      var p := ps[|ps| - 1];
      AddRef(Group(ps[..|ps| - 1]), p.0, p.1)
  }

  /** The designators filed under `desc`, in input order. */
  function RefsWith(ps: seq<(string, string)>, desc: string): seq<string>
    decreases |ps|
  {
    if ps == [] then []
    else RefsWith(ps[..|ps| - 1], desc) + if ps[|ps| - 1].0 == desc then [ps[|ps| - 1].1] else []
  }

  /** Designators in all the line items together. */
  function Total(lines: Lines): nat
    decreases |lines|
  {
    if lines == [] then 0 else Total(lines[..|lines| - 1]) + |lines[|lines| - 1].1|
  }

  /**
   * What `line_dict` holds: one entry per distinct descriptor, each with the
   * designators of exactly the components that have it, in input order.
   */
  ghost predicate Groups(lines: Lines, ps: seq<(string, string)>)
  {
    DistinctDescs(lines) && FiledAsInput(lines, ps) && Covers(lines, ps) && NoEmptyLine(lines)
  }

  predicate DistinctDescs(lines: Lines)
  {
    forall k, l :: 0 <= k < l < |lines| ==> lines[k].0 != lines[l].0
  }

  ghost predicate FiledAsInput(lines: Lines, ps: seq<(string, string)>)
  {
    forall k :: 0 <= k < |lines| ==> lines[k].1 == RefsWith(ps, lines[k].0)
  }

  predicate Covers(lines: Lines, ps: seq<(string, string)>)
  {
    forall i :: 0 <= i < |ps| ==> LineOf(lines, ps[i].0).Some?
  }

  predicate NoEmptyLine(lines: Lines)
  {
    forall k :: 0 <= k < |lines| ==> lines[k].1 != []
  }

  lemma {:induction false} RefsWithAbsent(ps: seq<(string, string)>, desc: string)
    requires forall i :: 0 <= i < |ps| ==> ps[i].0 != desc
    ensures RefsWith(ps, desc) == []
    decreases |ps|
  {
    if ps != [] {
      RefsWithAbsent(ps[..|ps| - 1], desc);
    }
  }

  lemma AddRefTotal(lines: Lines, desc: string, ref: string)
    ensures Total(AddRef(lines, desc, ref)) == Total(lines) + 1
  {
    match LineOf(lines, desc)
    case Some(k) => TotalUpdate(lines, k, (desc, lines[k].1 + [ref]));
    case None => assert (lines + [(desc, [ref])])[..|lines|] == lines;
  }

  lemma {:induction false} TotalUpdate(lines: Lines, k: nat, line: (string, seq<string>))
    requires k < |lines|
    ensures Total(lines[k := line]) == Total(lines) - |lines[k].1| + |line.1|
    decreases |lines|
  {
    var n := |lines| - 1;
    if k < n {
      assert lines[k := line][..n] == lines[..n][k := line];
      TotalUpdate(lines[..n], k, line);
    } else {
      assert lines[k := line][..n] == lines[..n];
    }
  }

  lemma LineOfFinds(lines: Lines, k: nat)
    requires k < |lines|
    ensures LineOf(lines, lines[k].0).Some?
  {
  }

  /** Every designator filed so far still finds its line after one more is filed. */
  lemma AddRefFinds(lines: Lines, key: string, ref: string, desc: string)
    requires LineOf(lines, desc).Some?
    ensures LineOf(AddRef(lines, key, ref), desc).Some?
  {
    var out := AddRef(lines, key, ref);
    var m := LineOf(lines, desc).value;
    assert out[m].0 == lines[m].0;
    LineOfFinds(out, m);
  }

  lemma AddRefFindsKey(lines: Lines, key: string, ref: string)
    ensures LineOf(AddRef(lines, key, ref), key).Some?
  {
    match LineOf(lines, key)
    case Some(k) => LineOfFinds(AddRef(lines, key, ref), k);
    case None => LineOfFinds(AddRef(lines, key, ref), |lines|);
  }

  /** One more pair filed. */
  lemma GroupsStep(lines: Lines, ps: seq<(string, string)>)
    requires ps != [] && Groups(lines, ps[..|ps| - 1])
    ensures Groups(AddRef(lines, ps[|ps| - 1].0, ps[|ps| - 1].1), ps)
  {
    var n := |ps| - 1;
    var init, p := ps[..n], ps[n];
    assert ps == init + [p];
    var out := AddRef(lines, p.0, p.1);
    forall i | 0 <= i < |ps| ensures LineOf(out, ps[i].0).Some? {
      if i < n {
        assert ps[i] == init[i];
        AddRefFinds(lines, p.0, p.1, init[i].0);
      } else {
        AddRefFindsKey(lines, p.0, p.1);
      }
    }
    assert Covers(out, ps);
    match LineOf(lines, p.0)
    case Some(k) => GroupsStepFound(lines, init, p, k);
    case None => GroupsStepNew(lines, init, p);
  }

  /** Filing a pair under a descriptor already in `line_dict` extends that one entry. */
  lemma GroupsStepFound(lines: Lines, init: seq<(string, string)>, p: (string, string), k0: nat)
    requires DistinctDescs(lines) && FiledAsInput(lines, init) && NoEmptyLine(lines)
    requires LineOf(lines, p.0) == Some(k0)
    ensures var out := AddRef(lines, p.0, p.1);
      DistinctDescs(out) && FiledAsInput(out, init + [p]) && NoEmptyLine(out)
  {
    var out := lines[k0 := (p.0, lines[k0].1 + [p.1])];
    assert AddRef(lines, p.0, p.1) == out;
    assert DistinctDescs(out) by {
      assert forall k :: 0 <= k < |out| ==> out[k].0 == lines[k].0;
    }
    assert FiledAsInput(out, init + [p]) by {
      forall k | 0 <= k < |out| ensures out[k].1 == RefsWith(init + [p], out[k].0) {
        RefsWithSnoc(init, p, out[k].0);
      }
    }
  }

  /** Filing a pair under a new descriptor appends an entry holding just its designator. */
  lemma GroupsStepNew(lines: Lines, init: seq<(string, string)>, p: (string, string))
    requires DistinctDescs(lines) && FiledAsInput(lines, init) && Covers(lines, init) && NoEmptyLine(lines)
    requires LineOf(lines, p.0).None?
    ensures var out := AddRef(lines, p.0, p.1);
      DistinctDescs(out) && FiledAsInput(out, init + [p]) && NoEmptyLine(out)
  {
    var out := lines + [(p.0, [p.1])];
    assert AddRef(lines, p.0, p.1) == out;
    AppendDistinct(lines, p.0, [p.1]);
    UncoveredAbsent(lines, init, p.0);
    RefsWithAbsent(init, p.0);
    forall k | 0 <= k < |out| ensures out[k].1 == RefsWith(init + [p], out[k].0) {
      RefsWithSnoc(init, p, out[k].0);
    }
  }

  lemma AppendDistinct(lines: Lines, desc: string, refs: seq<string>)
    requires DistinctDescs(lines) && LineOf(lines, desc).None?
    ensures DistinctDescs(lines + [(desc, refs)])
  {
    var out := lines + [(desc, refs)];
    forall k, l | 0 <= k < l < |out| ensures out[k].0 != out[l].0 {
      assert out[k] == lines[k];
    }
  }

  lemma RefsWithSnoc(init: seq<(string, string)>, p: (string, string), desc: string)
    ensures RefsWith(init + [p], desc) == RefsWith(init, desc) + if p.0 == desc then [p.1] else []
  {
    assert (init + [p])[..|init|] == init;
  }

  /** A descriptor without an entry belongs to none of the pairs filed so far. */
  lemma UncoveredAbsent(lines: Lines, ps: seq<(string, string)>, desc: string)
    requires Covers(lines, ps) && LineOf(lines, desc).None?
    ensures forall i :: 0 <= i < |ps| ==> ps[i].0 != desc
  {
    forall i | 0 <= i < |ps| ensures ps[i].0 != desc {
      var m := LineOf(lines, ps[i].0).value;
      assert lines[m].0 == ps[i].0;
    }
  }

  /** Filing the pairs groups them by descriptor, and no designator is lost or repeated. */
  lemma {:induction false} GroupGroups(ps: seq<(string, string)>)
    ensures Groups(Group(ps), ps)
    ensures Total(Group(ps)) == |ps|
    decreases |ps|
  {
    if ps != [] {
      var n := |ps| - 1;
      GroupGroups(ps[..n]);
      GroupsStep(Group(ps[..n]), ps);
      AddRefTotal(Group(ps[..n]), ps[n].0, ps[n].1);
    }
  }

  /**
   * The first loop of `group_items` raises KeyError exactly when some
   * component has no designator; otherwise it files every component's
   * designator under the component's descriptor.
   */
  lemma {:induction false} CollectGroups(cs: seq<Dict>)
    ensures Collect(cs).Ok? <==> AllDesignated(cs)
    ensures Collect(cs).Ok? ==> Collect(cs).value == Group(MapSeq(Keyed, cs))
    decreases |cs|
  {
    if cs != [] {
      var n := |cs| - 1;
      CollectGroups(cs[..n]);
      AllDesignatedInit(cs);
      if AllDesignated(cs) {
        KeyedInit(cs);
      }
    }
  }

  lemma AllDesignatedInit(cs: seq<Dict>)
    requires cs != []
    ensures AllDesignated(cs) <==> AllDesignated(cs[..|cs| - 1]) && HasKey(cs[|cs| - 1], "refdes")
  {
    var n := |cs| - 1;
    assert forall i :: 0 <= i < n ==> cs[..n][i] == cs[i];
  }

  lemma KeyedInit(cs: seq<Dict>)
    requires cs != []
    ensures MapSeq(Keyed, cs)[..|cs| - 1] == MapSeq(Keyed, cs[..|cs| - 1])
    ensures MapSeq(Keyed, cs)[|cs| - 1] == Keyed(cs[|cs| - 1])
  {
  }

  /**
   * The line items of the components: one per distinct descriptor, each
   * listing the designators of exactly the components with that descriptor,
   * the quantities summing to the number of components.
   */
  lemma CollectLines(cs: seq<Dict>)
    requires AllDesignated(cs)
    ensures Collect(cs).Ok?
    ensures Groups(Collect(cs).value, MapSeq(Keyed, cs))
    ensures Total(Collect(cs).value) == |cs|
  {
    CollectGroups(cs);
    GroupGroups(MapSeq(Keyed, cs));
  }

  lemma RefsWithHas(ps: seq<(string, string)>, i: nat)
    requires i < |ps|
    ensures ps[i].1 in RefsWith(ps, ps[i].0)
    decreases |ps|
  {
    var n := |ps| - 1;
    if i < n {
      assert ps[..n][i] == ps[i];
      RefsWithHas(ps[..n], i);
    }
  }

  // ---------------------------------------------------------------------------
  // Line items

  /** The second loop of `group_items` on one line: decoded fields, then `refdes` and `quantity`. */
  function Item(line: (string, seq<string>)): Result<Dict>
  {
    var fields :- Decode(line.0);
    var refdes :- SortRefdesSpec(Join(line.1, ","));
    Ok(Set(Set(fields, "refdes", refdes), "quantity", Dec(|line.1|)))
  }

  /** Applies `f` along `s`, stopping at the first failure. */
  function MapResults<T, U>(f: T -> Result<U>, s: seq<T>): Result<seq<U>>
    decreases |s|
  {
    if s == [] then Ok([])
    else
      var init :- MapResults(f, s[..|s| - 1]);
      var last :- f(s[|s| - 1]);
      Ok(init + [last])
  }

  lemma {:induction false} MapResultsOk<T, U>(f: T -> Result<U>, s: seq<T>)
    ensures MapResults(f, s).Ok? <==> forall k :: 0 <= k < |s| ==> f(s[k]).Ok?
    ensures MapResults(f, s).Ok? ==>
      |MapResults(f, s).value| == |s| && forall k :: 0 <= k < |s| ==> MapResults(f, s).value[k] == f(s[k]).value
    ensures MapResults(f, s).Err? ==> exists k :: 0 <= k < |s| && f(s[k]) == Err(MapResults(f, s).failure)
    decreases |s|
  {
    if s != [] {
      var n := |s| - 1;
      MapResultsOk(f, s[..n]);
      assert forall k :: 0 <= k < n ==> s[..n][k] == s[k];
    }
  }

  /** The second loop of `group_items`: one item per line, in `line_dict` order. */
  function MakeItems(lines: Lines): Result<seq<Dict>>
  {
    MapResults(Item, lines)
  }

  /** The items are the lines' items in order; the loop stops at the first line that fails, with IndexError. */
  lemma MakeItemsOk(lines: Lines)
    ensures MakeItems(lines).Ok? <==> forall k :: 0 <= k < |lines| ==> Item(lines[k]).Ok?
    ensures MakeItems(lines).Ok? ==>
      |MakeItems(lines).value| == |lines| && forall k :: 0 <= k < |lines| ==> MakeItems(lines).value[k] == Item(lines[k]).value
    ensures MakeItems(lines).Err? ==> MakeItems(lines).failure == IndexError
  {
    MapResultsOk(Item, lines);
    if MakeItems(lines).Err? {
      var k :| 0 <= k < |lines| && Item(lines[k]) == Err(MakeItems(lines).failure);
      ItemFails(lines[k]);
    }
  }

  lemma ItemFails(line: (string, seq<string>))
    ensures Item(line).Err? ==> Item(line).failure == IndexError
  {
    if Decode(line.0).Ok? {
      SortRefdesFails(Join(line.1, ","));
    } else {
      DecodeFails(line.0);
    }
  }

  lemma DecodeFails(desc: string)
    ensures Decode(desc).Err? ==> Decode(desc).failure == IndexError
  {
    SetAllErr(Split(desc, '\t'));
  }

  lemma {:induction false} SetAllErr(params: seq<string>)
    ensures SetAll(params).Err? ==> SetAll(params).failure == IndexError
    decreases |params|
  {
    if params != [] {
      SetAllErr(params[..|params| - 1]);
    }
  }

  /** A line item as a number: its `quantity`, or 0 when it has none. */
  function Quantity(item: Dict): nat
  {
    match Get(item, "quantity")
    case Some(q) => if AllDigits(q) then Value(q) else 0
    case None => 0
  }

  function Quantities(items: seq<Dict>): nat
    decreases |items|
  {
    if items == [] then 0 else Quantities(items[..|items| - 1]) + Quantity(items[|items| - 1])
  }

  lemma ItemQuantity(line: (string, seq<string>))
    requires Item(line).Ok?
    ensures Quantity(Item(line).value) == |line.1|
  {
    assert Get(Item(line).value, "quantity") == Some(Dec(|line.1|));
    ValueDec(|line.1|);
  }

  lemma {:induction false} QuantitiesTotal(items: seq<Dict>, lines: Lines)
    requires |items| == |lines| && forall k :: 0 <= k < |items| ==> Quantity(items[k]) == |lines[k].1|
    ensures Quantities(items) == Total(lines)
    decreases |items|
  {
    if items != [] {
      var n := |items| - 1;
      QuantitiesTotal(items[..n], lines[..n]);
    }
  }

  /** Each item's quantity is the number of designators on its line. */
  lemma ItemsQuantities(lines: Lines)
    requires MakeItems(lines).Ok?
    ensures Quantities(MakeItems(lines).value) == Total(lines)
  {
    MakeItemsOk(lines);
    var items := MakeItems(lines).value;
    forall k | 0 <= k < |items| ensures Quantity(items[k]) == |lines[k].1| {
      ItemQuantity(lines[k]);
    }
    QuantitiesTotal(items, lines);
  }

  lemma {:induction false} QuantitiesConcat(s: seq<Dict>, t: seq<Dict>)
    ensures Quantities(s + t) == Quantities(s) + Quantities(t)
    decreases |t|
  {
    if t == [] {
      assert s + t == s;
    } else {
      var n := |t| - 1;
      QuantitiesConcat(s, t[..n]);
      assert (s + t)[..|s + t| - 1] == s + t[..n];
    }
  }

  /** Reordering the items keeps the total quantity. */
  lemma {:induction false} QuantitiesPermutation(s: seq<Dict>, t: seq<Dict>)
    requires multiset(s) == multiset(t)
    ensures Quantities(s) == Quantities(t)
    decreases |s|
  {
    if s != [] {
      var n := |s| - 1;
      var x := s[n];
      assert x in multiset(t);
      var j :| 0 <= j < |t| && t[j] == x;
      var t' := t[..j] + t[j + 1..];
      assert t == t[..j] + [x] + t[j + 1..];
      assert s == s[..n] + [x];
      assert multiset(s) == multiset(s[..n]) + multiset{x};
      assert multiset(t) == multiset(t[..j]) + multiset{x} + multiset(t[j + 1..]) by {
        assert t == t[..j] + [x] + t[j + 1..];
      }
      assert multiset(t') == multiset(t[..j]) + multiset(t[j + 1..]);
      assert multiset(t') == multiset(t) - multiset{x};
      assert multiset(s[..n]) == multiset(s) - multiset{x};
      QuantitiesPermutation(s[..n], t');
      QuantitiesConcat(t[..j] + [x], t[j + 1..]);
      QuantitiesConcat(t[..j], [x]);
      QuantitiesConcat(t[..j], t[j + 1..]);
      assert ([] + [x])[..0] == [];
      assert Quantities([x]) == Quantity(x) by {
        assert [x][..0] == [];
      }
    }
  }

  // ---------------------------------------------------------------------------
  // Ordering the line items

  /** The designator list of a line item, its sort key. */
  function RefdesKey(item: Dict): string
  {
    match Get(item, "refdes")
    case Some(v) => v
    case None => ""
  }

  predicate ItemLe(a: Dict, b: Dict)
  {
    StrLe(RefdesKey(a), RefdesKey(b))
  }

  lemma ItemLeOrder()
    ensures TotalPreorder(ItemLe)
  {
    StrLeTotalOrder();
  }

  /** Two different dicts under the same designator list: Python cannot order them. */
  predicate HasTie(items: seq<Dict>)
  {
    exists i, j :: 0 <= i < j < |items| && RefdesKey(items[i]) == RefdesKey(items[j]) && multiset(items[i]) != multiset(items[j])
  }

  /**
   * `sorted([[x['refdes'], x] for x in bom_list])`: ordered by designator
   * list; items whose lists are equal are compared as dicts, which is
   * TypeError unless the dicts are equal (and then the sort keeps their order).
   */
  function SortItems(items: seq<Dict>): (r: Result<seq<Dict>>)
    ensures r.Err? <==> HasTie(items)
    ensures r.Err? ==> r.failure == TypeError
    ensures r.Ok? ==> multiset(r.value) == multiset(items)
  {
    if HasTie(items) then Err(TypeError) else Ok(SortBy(items, ItemLe))
  }

  /** The sorted items are in designator order, and items with equal designators keep their order. */
  lemma SortItemsOrdered(items: seq<Dict>)
    requires SortItems(items).Ok?
    ensures Sorted(SortItems(items).value, ItemLe)
    ensures forall z :: Peers(SortItems(items).value, z, ItemLe) == Peers(items, z, ItemLe)
  {
    ItemLeOrder();
    SortBySorted(items, ItemLe);
    forall z ensures Peers(SortBy(items, ItemLe), z, ItemLe) == Peers(items, z, ItemLe) {
      SortByStable(items, z, ItemLe);
    }
  }

  /** `group_items(components)`, with the exception it raises. */
  function GroupItemsSpec(cs: seq<Dict>): Result<seq<Dict>>
  {
    var lines :- Collect(cs);
    var items :- MakeItems(lines);
    SortItems(items)
  }

  /**
   * `group_items` fails with KeyError exactly when a component has no
   * designator; when it succeeds the line items are in designator order and
   * their quantities add up to the number of components.
   */
  lemma GroupItemsTotals(cs: seq<Dict>)
    ensures GroupItemsSpec(cs).Err? && GroupItemsSpec(cs).failure == KeyError <==> !AllDesignated(cs)
    ensures GroupItemsSpec(cs).Ok? ==> Sorted(GroupItemsSpec(cs).value, ItemLe)
    ensures GroupItemsSpec(cs).Ok? ==> Quantities(GroupItemsSpec(cs).value) == |cs|
  {
    CollectGroups(cs);
    if AllDesignated(cs) {
      CollectLines(cs);
      var lines := Collect(cs).value;
      MakeItemsOk(lines);
      if MakeItems(lines).Ok? {
        var items := MakeItems(lines).value;
        if SortItems(items).Ok? {
          SortItemsOrdered(items);
          ItemsQuantities(lines);
          QuantitiesPermutation(SortItems(items).value, items);
        }
      }
    }
  }

  /** The fields a line item gets from its descriptor. */
  lemma ItemFields(line: (string, seq<string>), d: Dict, key: string)
    requires Clean(d) && d != [] && line.0 == Descriptor(d) && Item(line).Ok?
    requires key != "refdes" && key != "quantity"
    ensures Get(Item(line).value, key) == Get(d, key)
  {
    DescriptorRoundTrip(d);
    CleanSorted(d);
    var fields := SortBy(d, EntryLe);
    GetPermutation(fields, d, key);
  }

  /**
   * A component's designator is listed on the line item of its descriptor,
   * and that item has every other field the component has, with the same
   * value.
   */
  lemma ComponentLine(cs: seq<Dict>, i: nat, key: string)
    requires AllDesignated(cs) && i < |cs|
    requires KeysDistinct(cs[i]) && Clean(Remove(cs[i], "refdes")) && Remove(cs[i], "refdes") != []
    requires key != "refdes" && key != "quantity"
    ensures Collect(cs).Ok? && LineOf(Collect(cs).value, KeyOf(cs[i])).Some?
    ensures var line := Collect(cs).value[LineOf(Collect(cs).value, KeyOf(cs[i])).value];
      line.1 == RefsWith(MapSeq(Keyed, cs), KeyOf(cs[i])) && RefOf(cs[i]) in line.1 &&
      (Item(line).Ok? ==> Get(Item(line).value, key) == Get(cs[i], key))
  {
    CollectLines(cs);
    var ps := MapSeq(Keyed, cs);
    var lines := Collect(cs).value;
    assert ps[i] == Keyed(cs[i]);
    var k := LineOf(lines, KeyOf(cs[i])).value;
    RefsWithHas(ps, i);
    if Item(lines[k]).Ok? {
      ItemFields(lines[k], Remove(cs[i], "refdes"), key);
      GetRemove(cs[i], "refdes", key);
    }
  }

  /**
   * A line item's designator list is its designators sorted by
   * `sort_refdes_string`, and its quantity is their number.
   */
  lemma ItemSummary(line: (string, seq<string>))
    requires Item(line).Ok?
    ensures SortRefdesSpec(Join(line.1, ",")).Ok?
    ensures Get(Item(line).value, "refdes") == Some(SortRefdesSpec(Join(line.1, ",")).value)
    ensures Get(Item(line).value, "quantity") == Some(Dec(|line.1|)) && Quantity(Item(line).value) == |line.1|
  {
    ItemQuantity(line);
  }

  /** Two components share a line item exactly when their fields other than `refdes` are the same. */
  lemma SharedLine(cs: seq<Dict>, i: nat, j: nat)
    requires AllDesignated(cs) && i < |cs| && j < |cs|
    requires Clean(Remove(cs[i], "refdes")) && Clean(Remove(cs[j], "refdes"))
    ensures Collect(cs).Ok?
    ensures LineOf(Collect(cs).value, KeyOf(cs[i])) == LineOf(Collect(cs).value, KeyOf(cs[j]))
        <==> multiset(Remove(cs[i], "refdes")) == multiset(Remove(cs[j], "refdes"))
  {
    CollectLines(cs);
    var ps := MapSeq(Keyed, cs);
    var lines := Collect(cs).value;
    assert ps[i] == Keyed(cs[i]) && ps[j] == Keyed(cs[j]);
    SameDescriptor(Remove(cs[i], "refdes"), Remove(cs[j], "refdes"));
    var a, b := LineOf(lines, KeyOf(cs[i])), LineOf(lines, KeyOf(cs[j]));
    if a == b {
      assert lines[a.value].0 == KeyOf(cs[i]) && lines[b.value].0 == KeyOf(cs[j]);
    }
  }

  /** How many components from the front get their designator popped before one is missing. */
  function FirstUndesignated(cs: seq<Dict>): (r: nat)
    ensures r <= |cs|
    ensures forall k :: 0 <= k < r ==> HasKey(cs[k], "refdes")
    ensures r < |cs| ==> !HasKey(cs[r], "refdes")
    decreases |cs|
  {
    if cs == [] || !HasKey(cs[0], "refdes") then 0
    else
      var r := 1 + FirstUndesignated(cs[1..]);
      assert forall k :: 1 <= k < r ==> cs[k] == cs[1..][k - 1];
      r
  }

  lemma {:induction false} MapResultsStops<T, U>(f: T -> Result<U>, s: seq<T>, i: nat)
    requires i < |s| && MapResults(f, s[..i]).Ok? && f(s[i]).Err?
    ensures MapResults(f, s) == Err(f(s[i]).failure)
    decreases |s|
  {
    var n := |s| - 1;
    if i < n {
      assert s[..n][..i] == s[..i];
      MapResultsStops(f, s[..n], i);
    } else {
      assert s[..n] == s[..i];
    }
  }

  /** The components once the first `n` have lost their designator. */
  function PopPrefix(cs: seq<Dict>, n: nat): (r: seq<Dict>)
    requires n <= |cs|
    ensures |r| == |cs|
    ensures forall k :: 0 <= k < |cs| ==> r[k] == if k < n then Remove(cs[k], "refdes") else cs[k]
  {
    seq(|cs|, k requires 0 <= k < |cs| => if k < n then Remove(cs[k], "refdes") else cs[k])
  }

  lemma {:induction false} FirstUndesignatedIs(cs: seq<Dict>, i: nat)
    requires i <= |cs|
    requires forall k :: 0 <= k < i ==> HasKey(cs[k], "refdes")
    requires i < |cs| ==> !HasKey(cs[i], "refdes")
    ensures FirstUndesignated(cs) == i
    decreases i
  {
    if i > 0 {
      assert HasKey(cs[0], "refdes");
      FirstUndesignatedIs(cs[1..], i - 1);
    }
  }

  lemma ItemOk(line: (string, seq<string>), fields: Dict, refdes: string)
    requires Decode(line.0) == Ok(fields) && SortRefdesSpec(Join(line.1, ",")) == Ok(refdes)
    ensures Item(line) == Ok(Set(Set(fields, "refdes", refdes), "quantity", Dec(|line.1|)))
  {
  }

  lemma MakeItemsSnoc(lines: Lines, i: nat, items: seq<Dict>, item: Dict)
    requires i < |lines| && MakeItems(lines[..i]) == Ok(items) && Item(lines[i]) == Ok(item)
    ensures MakeItems(lines[..i + 1]) == Ok(items + [item])
  {
    MapResultsSnoc(Item, lines, i, items, item);
  }

  lemma MapResultsSnoc<T, U>(f: T -> Result<U>, s: seq<T>, i: nat, init: seq<U>, last: U)
    requires i < |s| && MapResults(f, s[..i]) == Ok(init) && f(s[i]) == Ok(last)
    ensures MapResults(f, s[..i + 1]) == Ok(init + [last])
  {
    assert s[..i + 1][..i] == s[..i];
  }

  lemma CollectSnoc(cs: seq<Dict>, i: nat, lines: Lines)
    requires i < |cs| && Collect(cs[..i]) == Ok(lines) && HasKey(cs[i], "refdes")
    ensures Collect(cs[..i + 1]) == Ok(AddRef(lines, KeyOf(cs[i]), RefOf(cs[i])))
  {
    assert cs[..i + 1][..i] == cs[..i];
  }

  lemma PopPrefixStep(cs: seq<Dict>, i: nat)
    requires i < |cs|
    ensures PopPrefix(cs, i)[i := Remove(cs[i], "refdes")] == PopPrefix(cs, i + 1)
  {
  }

  /** One filing in the first loop of `group_items`: the new entry is created empty, then extended. */
  method FileRef(lineDict: Lines, descriptor: string, refdes: string) returns (out: Lines)
    ensures out == AddRef(lineDict, descriptor, refdes)
  {
    var k := LineOf(lineDict, descriptor);
    out := lineDict;
    if k.None? {
      out := out + [(descriptor, [])];
      k := Some(|out| - 1);
    }
    var refs := out[k.value].1;
    out := out[k.value := (descriptor, refs + [refdes])];
    if LineOf(lineDict, descriptor).None? {
      assert refs + [refdes] == [refdes];
      assert out == lineDict + [(descriptor, [refdes])];
    }
  }

  /**
   * The first loop of `group_items`: pops each component's `refdes` in
   * place and files it under the component's descriptor, up to the first
   * component that has none.
   */
  method FileComponents(components: array<Dict>) returns (r: Result<Lines>)
    modifies components
    ensures r == Collect(old(components[..]))
    ensures components[..] == PopPrefix(old(components[..]), FirstUndesignated(old(components[..])))
  {
    ghost var cs := components[..];
    var lineDict: Lines := [];
    var i := 0;
    while i < components.Length
      invariant 0 <= i <= components.Length
      invariant Collect(cs[..i]) == Ok(lineDict)
      invariant forall k :: 0 <= k < i ==> HasKey(cs[k], "refdes")
      invariant components[..] == PopPrefix(cs, i)
    {
      var popped := Pop(components[i], "refdes");
      if popped.Err? {
        FirstUndesignatedIs(cs, i);
        CollectGroups(cs);
        return Err(KeyError);
      }
      var refdes := popped.value.0;
      ghost var was := components[..];
      components[i] := popped.value.1;
      assert components[..] == was[i := popped.value.1];
      PopPrefixStep(cs, i);
      var descriptor := BuildDescriptor(components[i]);
      CollectSnoc(cs, i, lineDict);
      lineDict := FileRef(lineDict, descriptor, refdes);
      i := i + 1;
    }
    assert cs[..i] == cs;
    FirstUndesignatedIs(cs, i);
    return Ok(lineDict);
  }

  /** `group_items(components)`; the components lose their `refdes` entries as `FileComponents` says. */
  method GroupItems(components: array<Dict>) returns (r: Result<seq<Dict>>)
    modifies components
    ensures r == GroupItemsSpec(old(components[..]))
    ensures components[..] == PopPrefix(old(components[..]), FirstUndesignated(old(components[..])))
  {
    var filed := FileComponents(components);
    if filed.Err? {
      return Err(filed.failure);
    }
    var lineDict := filed.value;
    ghost var popped := components[..];
    var bomList: seq<Dict> := [];
    var i := 0;
    while i < |lineDict|
      invariant 0 <= i <= |lineDict|
      invariant MakeItems(lineDict[..i]) == Ok(bomList)
      invariant components[..] == popped
    {
      var fields := DecodeFields(lineDict[i].0);
      if fields.Err? {
        MapResultsStops(Item, lineDict, i);
        return Err(fields.failure);
      }
      var refdesString := Join(lineDict[i].1, ",");
      var quantity := |lineDict[i].1|;
      var sorted := SortRefdesString(refdesString);
      if sorted.Err? {
        MapResultsStops(Item, lineDict, i);
        return Err(sorted.failure);
      }
      var item := Set(fields.value, "refdes", sorted.value);
      item := Set(item, "quantity", Dec(quantity));
      ItemOk(lineDict[i], fields.value, sorted.value);
      MakeItemsSnoc(lineDict, i, bomList, item);
      bomList := bomList + [item];
      i := i + 1;
    }
    assert lineDict[..i] == lineDict;
    r := SortItems(bomList);
  }
}
