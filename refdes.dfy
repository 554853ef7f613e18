/**
 * `sort_refdes_string` of the BOM exporter: a comma-separated list of
 * reference designators is split, each designator is stripped, its trailing
 * number is zero-padded to eight digits, the padded texts are sorted as
 * strings, and the numbers are put back without leading zeros.
 */
module Refdes {
  import opened Results
  import opened Text
  import opened StableSort

  // ---------------------------------------------------------------------------
  // str.strip()

  /** `s` without its leading whitespace. */
  function TrimLeft(s: string): (t: string)
    ensures |t| <= |s| && t == s[|s| - |t|..]
    ensures forall i :: 0 <= i < |s| - |t| ==> IsStrSpace(s[i])
    ensures t != [] ==> !IsStrSpace(t[0])
    decreases |s|
  {
    if s != [] && IsStrSpace(s[0]) then TrimLeft(s[1..]) else s
  }

  /** `s` without its trailing whitespace. */
  function TrimRight(s: string): (t: string)
    ensures |t| <= |s| && t == s[..|t|]
    ensures forall i :: |t| <= i < |s| ==> IsStrSpace(s[i])
    ensures t != [] ==> !IsStrSpace(t[|t| - 1])
    decreases |s|
  {
    if s != [] && IsStrSpace(s[|s| - 1]) then TrimRight(s[..|s| - 1]) else s
  }

  /** `t` is a slice of `s` with only whitespace before and after it. */
  predicate Trimmed(s: string, t: string)
  {
    exists i, j :: 0 <= i <= j <= |s| && t == s[i..j]
      && (forall k :: 0 <= k < i ==> IsStrSpace(s[k]))
      && (forall k :: j <= k < |s| ==> IsStrSpace(s[k]))
  }

  /** Python `s.strip()`: the text between the leading and the trailing whitespace. */
  function StripSpace(s: string): (t: string)
    ensures Trimmed(s, t)
    ensures t != [] ==> !IsStrSpace(t[0]) && !IsStrSpace(t[|t| - 1])
  {
    var l := TrimLeft(s);
    var t := TrimRight(l);
    StripBounds(s, l, t);
    t
  }

  /** What is trimmed on the left and then on the right of `s` is a slice of `s` between blanks. */
  lemma StripBounds(s: string, l: string, t: string)
    requires |l| <= |s| && l == s[|s| - |l|..] && forall k :: 0 <= k < |s| - |l| ==> IsStrSpace(s[k])
    requires |t| <= |l| && t == l[..|t|] && forall k :: |t| <= k < |l| ==> IsStrSpace(l[k])
    requires l != [] ==> !IsStrSpace(l[0])
    requires t != [] ==> !IsStrSpace(t[|t| - 1])
    ensures Trimmed(s, t)
    ensures t != [] ==> !IsStrSpace(t[0]) && !IsStrSpace(t[|t| - 1])
  {
    assert t != [] ==> t[0] == l[0];
    var i := |s| - |l|;
    var j := i + |t|;
    assert t == s[i..j];
    forall k | j <= k < |s| ensures IsStrSpace(s[k]) {
      assert s[k] == l[k - i];
    }
  }

  // ---------------------------------------------------------------------------
  // The trailing number

  /** The longest run of digits at the end of `d`: what `re.findall("[0-9]+$", d)` finds. */
  function TrailingDigits(d: string): (n: string)
    ensures |n| <= |d| && n == d[|d| - |n|..]
    ensures AllDigits(n)
    ensures |n| < |d| ==> !IsDigit(d[|d| - |n| - 1])
    ensures n != [] <==> EndsInDigit(d)
    decreases |d|
  {
    if d != [] && IsDigit(d[|d| - 1]) then TrailingDigits(d[..|d| - 1]) + [d[|d| - 1]] else []
  }

  /** `re.findall("[0-9]+$", d)[0]`: the list is empty when `d` does not end in a digit. */
  function Number(d: string): (r: Result<string>)
    ensures r.Ok? <==> EndsInDigit(d)
    ensures r.Err? ==> r.failure == IndexError
    ensures r.Ok? ==> r.value == TrailingDigits(d) && r.value != []
  {
    var n := TrailingDigits(d);
    if n == [] then Err(IndexError) else Ok(n)
  }

  /** `d.replace(number, number.zfill(8))`. */
  function PadText(d: string): string
  {
    var n := TrailingDigits(d);
    if n == [] then d else Replace(d, n, ZFill(n, 8))
  }

  /** `d.replace(number, str(int(number)))`. */
  function UnpadText(d: string): string
  {
    var n := TrailingDigits(d);
    if n == [] then d else Replace(d, n, Dec(Value(n)))
  }

  predicate EndsInDigit(d: string) { d != [] && IsDigit(d[|d| - 1]) }

  /** Every designator ends in a digit, so `re.findall` finds a number in each. */
  predicate AllNumbered(ds: seq<string>)
  {
    forall i :: 0 <= i < |ds| ==> EndsInDigit(ds[i])
  }

  /**
   * One of the two loops: `f` rewrites each designator in turn, and the loop
   * raises IndexError at the first designator in which `re.findall` finds no
   * number.
   */
  function ConvertAll(f: string -> string, ds: seq<string>): (r: Result<seq<string>>)
    ensures r.Err? ==> r.failure == IndexError
    decreases |ds|
  {
    if ds == [] then Ok([])
    else
      var init := ConvertAll(f, ds[..|ds| - 1]);
      var last := ds[|ds| - 1];
      if init.Err? then init
      else if Number(last).Err? then Err(IndexError)
      else Ok(init.value + [f(last)])
  }

  /** The loop completes exactly when every designator ends in a digit, and rewrites each. */
  lemma ConvertAllOk(f: string -> string, ds: seq<string>)
    ensures ConvertAll(f, ds).Ok? <==> AllNumbered(ds)
    ensures ConvertAll(f, ds).Ok? ==> ConvertAll(f, ds).value == MapSeq(f, ds)
  {
    ConvertAllSucceeds(f, ds);
    if AllNumbered(ds) {
      ConvertAllMaps(f, ds);
    }
  }

  lemma {:induction false} ConvertAllSucceeds(f: string -> string, ds: seq<string>)
    ensures ConvertAll(f, ds).Ok? <==> AllNumbered(ds)
    decreases |ds|
  {
    if ds != [] {
      ConvertAllSucceeds(f, ds[..|ds| - 1]);
      AllNumberedInit(ds);
    }
  }

  lemma {:induction false} ConvertAllMaps(f: string -> string, ds: seq<string>)
    requires AllNumbered(ds)
    ensures ConvertAll(f, ds) == Ok(MapSeq(f, ds))
    decreases |ds|
  {
    if ds != [] {
      var init, last := ds[..|ds| - 1], ds[|ds| - 1];
      AllNumberedInit(ds);
      ConvertAllMaps(f, init);
      SplitLast(ds);
      MapSeqSnoc(f, init, last);
    }
  }

  lemma AllNumberedInit(ds: seq<string>)
    requires ds != []
    ensures AllNumbered(ds) <==> AllNumbered(ds[..|ds| - 1]) && EndsInDigit(ds[|ds| - 1])
  {
    assert forall i :: 0 <= i < |ds| - 1 ==> ds[..|ds| - 1][i] == ds[i];
  }

  /** One more turn of a loop that goes on. */
  lemma ConvertAllStep(f: string -> string, ds: seq<string>, i: nat)
    requires i < |ds| && ConvertAll(f, ds[..i]).Ok? && EndsInDigit(ds[i])
    ensures ConvertAll(f, ds[..i + 1]) == Ok(ConvertAll(f, ds[..i]).value + [f(ds[i])])
  {
    assert ds[..i + 1][..i] == ds[..i];
  }

  /** A designator without a number stops the loop with IndexError. */
  lemma ConvertAllStops(f: string -> string, ds: seq<string>, i: nat)
    requires i < |ds| && !EndsInDigit(ds[i])
    ensures ConvertAll(f, ds) == Err(IndexError)
  {
    ConvertAllOk(f, ds);
  }

  /** The stripped designators of a comma-separated list. */
  function Designators(s: string): (ds: seq<string>)
    ensures |ds| == |Split(s, ',')|
  {
    MapSeq(StripSpace, Split(s, ','))
  }

  /** `sort_refdes_string` before the final join: the list it joins, or its exception. */
  function SortRefdesList(s: string): Result<seq<string>>
  {
    SortDesignators(Designators(s))
  }

  /** The two loops and the sort between them, on the stripped designators. */
  function SortDesignators(ds: seq<string>): Result<seq<string>>
  {
    var padded :- ConvertAll(PadText, ds);
    ConvertAll(UnpadText, SortBy(padded, StrLe))
  }

  /** `sort_refdes_string(s)`. */
  function SortRefdesSpec(s: string): Result<string>
  {
    var final :- SortRefdesList(s);
    Ok(Join(final, ", "))
  }

  method SortRefdesString(s: string) returns (r: Result<string>)
    ensures r == SortRefdesSpec(s)
  {
    var refdesList := Designators(s);
    var sortedList := PadAll(refdesList);
    if sortedList.Err? {
      return Err(sortedList.failure);
    }
    var ordered := SortBy(sortedList.value, StrLe);
    var finalList := UnpadAll(ordered);
    if finalList.Err? {
      return Err(finalList.failure);
    }
    return Ok(Join(finalList.value, ", "));
  }

  /** The first loop of `sort_refdes_string`: pad each designator's number to eight digits. */
  method PadAll(ds: seq<string>) returns (r: Result<seq<string>>)
    ensures r == ConvertAll(PadText, ds)
  {
    var padded: seq<string> := [];
    var i := 0;
    while i < |ds|
      invariant 0 <= i <= |ds|
      invariant ConvertAll(PadText, ds[..i]) == Ok(padded)
    {
      var number := Number(ds[i]);
      if number.Err? {
        ConvertAllStops(PadText, ds, i);
        return Err(number.failure);
      }
      ConvertAllStep(PadText, ds, i);
      padded := padded + [Replace(ds[i], number.value, ZFill(number.value, 8))];
      i := i + 1;
    }
    assert ds[..i] == ds;
    return Ok(padded);
  }

  /** The second loop of `sort_refdes_string`: write each number back without leading zeros. */
  method UnpadAll(ds: seq<string>) returns (r: Result<seq<string>>)
    ensures r == ConvertAll(UnpadText, ds)
  {
    var unpadded: seq<string> := [];
    var i := 0;
    while i < |ds|
      invariant 0 <= i <= |ds|
      invariant ConvertAll(UnpadText, ds[..i]) == Ok(unpadded)
    {
      var number := Number(ds[i]);
      if number.Err? {
        ConvertAllStops(UnpadText, ds, i);
        return Err(number.failure);
      }
      ConvertAllStep(UnpadText, ds, i);
      unpadded := unpadded + [Replace(ds[i], number.value, Dec(Value(number.value)))];
      i := i + 1;
    }
    assert ds[..i] == ds;
    return Ok(unpadded);
  }

  // ---------------------------------------------------------------------------
  // Padding and unpadding one designator

  /** A designator whose only digits are its trailing number, such as `R10` or `C3`. */
  predicate PlainRefdes(d: string)
  {
    TrailingDigits(d) != [] && forall i :: 0 <= i < |d| - |TrailingDigits(d)| ==> !IsDigit(d[i])
  }

  /** The text before the trailing number. */
  function Prefix(d: string): (p: string)
    ensures d == p + TrailingDigits(d)
  {
    var k := |d| - |TrailingDigits(d)|;
    SplitAt(d, k);
    d[..k]
  }

  /** The designator with its number written without leading zeros. */
  function Canonical(d: string): string
  {
    if TrailingDigits(d) == [] then d else Prefix(d) + Dec(Value(TrailingDigits(d)))
  }

  /** A digit appended to a text extends its trailing number. */
  lemma TrailingSnoc(x: string, c: char)
    requires IsDigit(c)
    ensures TrailingDigits(x + [c]) == TrailingDigits(x) + [c]
  {
    assert (x + [c])[..|x|] == x;
  }

  /** The last character of `n` is the last character of `p + n`. */
  lemma ConcatSnoc(p: string, n: string)
    requires n != []
    ensures p + n == (p + n[..|n| - 1]) + [n[|n| - 1]]
  {
    SplitLast(n);
  }

  /** The trailing number is the digits after a text that does not end in a digit. */
  lemma {:induction false} TrailingAfter(p: string, n: string)
    requires p == [] || !IsDigit(p[|p| - 1])
    requires AllDigits(n)
    ensures TrailingDigits(p + n) == n
    decreases |n|
  {
    if n == [] {
      assert p + n == p;
    } else {
      var m := n[..|n| - 1];
      TrailingAfter(p, m);
      ConcatSnoc(p, n);
      TrailingSnoc(p + m, n[|n| - 1]);
      SplitLast(n);
    }
  }

  lemma ZFillDigits(n: string, w: nat)
    requires AllDigits(n)
    ensures ZFill(n, w) == Zeros(if |n| < w then w - |n| else 0) + n
    ensures AllDigits(ZFill(n, w)) && Value(ZFill(n, w)) == Value(n)
    ensures |ZFill(n, w)| == if |n| < w then w else |n|
  {
    assert Zeros(0) + n == n;
    ValueLeadingZeros(if |n| < w then w - |n| else 0, n);
  }

  /** No occurrence of the number straddles the end of the text in front of it. */
  lemma ReplaceTrailing(p: string, n: string, z: string)
    requires p == [] || !IsDigit(p[|p| - 1])
    requires n != [] && AllDigits(n)
    ensures Replace(p + n, n, z) == Replace(p, n, z) + z
  {
    forall i | 0 <= i < |p| && |p| < i + |n| ensures !StartsWith((p + n)[i..], n) {
      var k := |p| - 1 - i;
      assert (p + n)[i..][k] == p[|p| - 1];
      assert IsDigit(n[k]);
    }
    ReplaceConcat(p, n, n, z);
    assert n + [] == n;
    ReplaceAtHead(n, [], z);
  }

  /** A padded designator still ends in a digit, so the second loop finds a number wherever the first did. */
  lemma PadEndsInDigit(d: string)
    requires TrailingDigits(d) != []
    ensures EndsInDigit(PadText(d))
  {
    var p, n := Prefix(d), TrailingDigits(d);
    var z := ZFill(n, 8);
    ZFillDigits(n, 8);
    assert EndsInDigit(z) by {
      assert IsDigit(z[|z| - 1]);
    }
    PrefixEnd(d);
    ReplaceTrailing(p, n, z);
    EndsInDigitAppend(Replace(p, n, z), z);
  }

  /** The text before the trailing number does not end in a digit. */
  lemma PrefixEnd(d: string)
    ensures Prefix(d) == [] || !IsDigit(Prefix(d)[|Prefix(d)| - 1])
  {
    var p, n := Prefix(d), TrailingDigits(d);
    if p != [] {
      assert p[|p| - 1] == d[|d| - |n| - 1];
    }
  }

  lemma EndsInDigitAppend(a: string, z: string)
    requires EndsInDigit(z)
    ensures EndsInDigit(a + z)
  {
    assert (a + z)[|a + z| - 1] == z[|z| - 1];
  }

  /** `R7` pads to `R00000007` and comes back as `R7`; `R007` comes back as `R7` too. */
  lemma PadRoundTrip(d: string)
    requires PlainRefdes(d)
    ensures PadText(d) == Prefix(d) + ZFill(TrailingDigits(d), 8)
    ensures UnpadText(PadText(d)) == Canonical(d)
  {
    var p, n := Prefix(d), TrailingDigits(d);
    var z := ZFill(n, 8);
    ZFillDigits(n, 8);
    assert p == [] || !IsDigit(p[|p| - 1]);
    ReplaceTrailing(p, n, z);
    assert IsDigit(n[0]);
    ReplaceAbsentHead(p, n, z);
    TrailingAfter(p, z);
    ReplaceTrailing(p, z, Dec(Value(z)));
    assert IsDigit(z[0]);
    ReplaceAbsentHead(p, z, Dec(Value(z)));
  }

  /** A designator that is already canonical survives the round trip unchanged. */
  lemma CanonicalKept(d: string)
    requires PlainRefdes(d) && Dec(Value(TrailingDigits(d))) == TrailingDigits(d)
    ensures Canonical(d) == d
  {
  }

  lemma {:induction false} StrLtCommonPrefix(p: string, a: string, b: string)
    ensures StrLt(p + a, p + b) <==> StrLt(a, b)
    decreases |p|
  {
    if p != [] {
      assert (p + a)[1..] == p[1..] + a && (p + b)[1..] == p[1..] + b;
      StrLtCommonPrefix(p[1..], a, b);
    } else {
      assert p + a == a && p + b == b;
    }
  }

  /**
   * Zero-padding to eight digits makes string order numeric order: under the
   * same prefix, `R2` sorts before `R10`, for numbers of at most eight digits.
   */
  lemma PaddedOrder(p: string, m: string, n: string)
    requires AllDigits(m) && AllDigits(n) && |m| <= 8 && |n| <= 8
    ensures StrLt(p + ZFill(m, 8), p + ZFill(n, 8)) <==> Value(m) < Value(n)
  {
    ZFillDigits(m, 8);
    ZFillDigits(n, 8);
    StrLtCommonPrefix(p, ZFill(m, 8), ZFill(n, 8));
    EqualLengthOrder(ZFill(m, 8), ZFill(n, 8));
  }

  // ---------------------------------------------------------------------------
  // The whole list

  /** Every padded designator has a number for the second loop to find. */
  lemma UnpadAfterPad(ds: seq<string>)
    requires AllNumbered(ds)
    ensures ConvertAll(PadText, ds).Ok? && AllNumbered(SortBy(ConvertAll(PadText, ds).value, StrLe))
  {
    ConvertAllOk(PadText, ds);
    var padded := ConvertAll(PadText, ds).value;
    var ordered := SortBy(padded, StrLe);
    forall k | 0 <= k < |ordered| ensures EndsInDigit(ordered[k]) {
      assert ordered[k] in multiset(padded);
      var i :| 0 <= i < |padded| && padded[i] == ordered[k];
      PadEndsInDigit(ds[i]);
    }
  }

  /** `sort_refdes_string` raises IndexError exactly when some designator does not end in a digit. */
  lemma SortRefdesFails(s: string)
    ensures SortRefdesList(s).Err? <==> !AllNumbered(Designators(s))
    ensures SortRefdesList(s).Err? ==> SortRefdesList(s).failure == IndexError
    ensures SortRefdesList(s).Ok? ==> |SortRefdesList(s).value| == |Split(s, ',')|
  {
    SortDesignatorsFails(Designators(s));
  }

  lemma SortDesignatorsFails(ds: seq<string>)
    ensures SortDesignators(ds).Err? <==> !AllNumbered(ds)
    ensures SortDesignators(ds).Err? ==> SortDesignators(ds).failure == IndexError
    ensures SortDesignators(ds).Ok? ==> |SortDesignators(ds).value| == |ds|
  {
    ConvertAllOk(PadText, ds);
    if AllNumbered(ds) {
      UnpadAfterPad(ds);
      ConvertAllOk(UnpadText, SortBy(ConvertAll(PadText, ds).value, StrLe));
    }
  }

  /** The order `sorted` puts designators in: by their padded text. */
  function RefdesLe(a: string, b: string): bool
  {
    StrLe(PadText(a), PadText(b))
  }

  lemma RefdesLeTotal()
    ensures TotalPreorder(RefdesLe)
  {
    StrLeTotalOrder();
  }

  /** Under one prefix, a list ordered by padded text has its numbers of at most eight digits in numeric order. */
  lemma SortedNumeric(sorted: seq<string>)
    requires forall k :: 0 <= k < |sorted| ==> PlainRefdes(sorted[k])
    requires Sorted(sorted, RefdesLe)
    ensures forall i, j :: 0 <= i < j < |sorted| && Prefix(sorted[i]) == Prefix(sorted[j])
              && |TrailingDigits(sorted[i])| <= 8 && |TrailingDigits(sorted[j])| <= 8
              ==> Value(TrailingDigits(sorted[i])) <= Value(TrailingDigits(sorted[j]))
  {
    forall i, j | 0 <= i < j < |sorted| && Prefix(sorted[i]) == Prefix(sorted[j])
        && |TrailingDigits(sorted[i])| <= 8 && |TrailingDigits(sorted[j])| <= 8
      ensures Value(TrailingDigits(sorted[i])) <= Value(TrailingDigits(sorted[j]))
    {
      NumericPair(sorted[i], sorted[j]);
    }
  }

  lemma NumericPair(a: string, b: string)
    requires PlainRefdes(a) && PlainRefdes(b) && RefdesLe(a, b) && Prefix(a) == Prefix(b)
    requires |TrailingDigits(a)| <= 8 && |TrailingDigits(b)| <= 8
    ensures Value(TrailingDigits(a)) <= Value(TrailingDigits(b))
  {
    var m, n := TrailingDigits(a), TrailingDigits(b);
    PadRoundTrip(a);
    PadRoundTrip(b);
    PaddedOrder(Prefix(a), m, n);
    if PadText(a) == PadText(b) {
      ZFillDigits(m, 8);
      ZFillDigits(n, 8);
      assert ZFill(m, 8) == PadText(a)[|Prefix(a)|..];
      assert ZFill(n, 8) == PadText(b)[|Prefix(a)|..];
    }
  }

  /**
   * Outside `PlainRefdes` the padded order is not numeric: `str.replace` pads
   * every copy of the trailing number, so `R10X10` pads to
   * `R00000010X00000010` while `R10X9` pads to `R10X00000009`, and although
   * both have the prefix `R10X`, number 10 sorts before number 9.
   */
  lemma PaddingEveryCopy()
    ensures Prefix("R10X10") == "R10X" && TrailingDigits("R10X10") == "10"
    ensures Prefix("R10X9") == "R10X" && TrailingDigits("R10X9") == "9"
    ensures ZFill("10", 8) == "00000010" && ZFill("9", 8) == "00000009"
    ensures PadText("R10X10") == "R" + ZFill("10", 8) + "X" + ZFill("10", 8)
    ensures PadText("R10X9") == "R10X" + ZFill("9", 8)
    ensures RefdesLe("R10X10", "R10X9") && !RefdesLe("R10X9", "R10X10")
  {
    PrefixTen();
    PrefixNine();
    ZFillTen();
    ZFillNine();
    PadTen();
    PadNine();
    SecondCharDecides(PadText("R10X10"), PadText("R10X9"));
  }

  lemma PrefixTen()
    ensures Prefix("R10X10") == "R10X" && TrailingDigits("R10X10") == "10"
  {
    TrailingAfter("R10X", "10");
    assert "R10X" + "10" == "R10X10";
  }

  lemma PrefixNine()
    ensures Prefix("R10X9") == "R10X" && TrailingDigits("R10X9") == "9"
  {
    TrailingAfter("R10X", "9");
    assert "R10X" + "9" == "R10X9";
  }

  lemma ZFillTen()
    ensures ZFill("10", 8) == "00000010"
  {
    assert Zeros(6) == "000000";
  }

  lemma ZFillNine()
    ensures ZFill("9", 8) == "00000009"
  {
    assert Zeros(7) == "0000000";
  }

  lemma PadTen()
    ensures PadText("R10X10") == "R" + ZFill("10", 8) + "X" + ZFill("10", 8)
  {
    PrefixTen();
    var p := "10";
    assert "R10X10" == ['R'] + p + ['X'] + p;
    ReplaceTwice('R', 'X', p, ZFill(p, 8));
  }

  lemma PadNine()
    ensures PadText("R10X9") == "R10X" + ZFill("9", 8)
  {
    PrefixNine();
    var p := "9";
    assert "R10X9" == "R10X" + p + [];
    ReplaceAfter("R10X", p, [], ZFill(p, 8));
    assert "R10X" + ZFill(p, 8) + [] == "R10X" + ZFill(p, 8);
  }

  /** A pattern after each of two characters that cannot start it. */
  lemma ReplaceTwice(c: char, d: char, p: string, r: string)
    requires p != [] && p[0] != c && p[0] != d
    ensures Replace([c] + p + [d] + p, p, r) == [c] + r + [d] + r
  {
    ReplaceAfter([d], p, [], r);
    assert [d] + p + [] == [d] + p;
    ReplaceAfter([c], p, [d] + p, r);
    assert [c] + p + ([d] + p) == [c] + p + [d] + p;
    assert [c] + r + ([d] + r + []) == [c] + r + [d] + r;
  }

  /** Text free of the pattern's first character, then the pattern: both are replaced as one would expect. */
  lemma ReplaceAfter(a: string, p: string, rest: string, r: string)
    requires p != [] && p[0] !in a
    ensures Replace(a + p + rest, p, r) == a + r + Replace(rest, p, r)
  {
    ReplaceClearHead(a, p + rest, p, r);
    ReplaceAtHead(p, rest, r);
    assert a + p + rest == a + (p + rest);
    assert a + (r + Replace(rest, p, r)) == a + r + Replace(rest, p, r);
  }

  /** Two texts that agree on their first character are ordered by their second. */
  lemma SecondCharDecides(a: string, b: string)
    requires |a| >= 2 && |b| >= 2 && a[0] == b[0] && a[1] < b[1]
    ensures StrLt(a, b) && !StrLe(b, a)
  {
    assert a[1..][0] == a[1] && b[1..][0] == b[1];
    assert StrLt(a[1..], b[1..]);
    assert !StrLt(b[1..], a[1..]);
    assert b != a;
  }

  /** The list `sort_refdes_string` joins, on designators whose only digits are the trailing number. */
  lemma SortDesignatorsPlain(ds: seq<string>)
    requires forall i :: 0 <= i < |ds| ==> PlainRefdes(ds[i])
    ensures SortDesignators(ds) == Ok(MapSeq(Canonical, SortBy(ds, RefdesLe)))
  {
    var sorted := SortBy(ds, RefdesLe);
    var padded := MapSeq(PadText, sorted);
    assert ConvertAll(PadText, ds) == Ok(MapSeq(PadText, ds)) by {
      assert AllNumbered(ds);
      ConvertAllOk(PadText, ds);
    }
    assert SortBy(MapSeq(PadText, ds), StrLe) == padded by {
      SortByMap(ds, PadText, RefdesLe, StrLe);
    }
    assert ConvertAll(UnpadText, padded) == Ok(MapSeq(Canonical, sorted)) by {
      UnpadPadded(ds, sorted);
      ConvertAllOk(UnpadText, padded);
    }
  }

  lemma UnpadPadded(ds: seq<string>, sorted: seq<string>)
    requires forall i :: 0 <= i < |ds| ==> PlainRefdes(ds[i])
    requires multiset(sorted) == multiset(ds)
    ensures AllNumbered(MapSeq(PadText, sorted))
    ensures MapSeq(UnpadText, MapSeq(PadText, sorted)) == MapSeq(Canonical, sorted)
  {
    var padded := MapSeq(PadText, sorted);
    forall k | 0 <= k < |sorted| ensures EndsInDigit(padded[k]) && UnpadText(padded[k]) == Canonical(sorted[k]) {
      assert sorted[k] in multiset(ds);
      PadRoundTrip(sorted[k]);
      PadEndsInDigit(sorted[k]);
    }
  }

  /**
   * On designators whose only digits are the trailing number, the list is the
   * designators sorted by their padded text, each written with its number
   * without leading zeros; it is a permutation of the input, and under one
   * prefix the numbers of at most eight digits come out in numeric order.
   */
  lemma SortRefdesPlain(s: string)
    requires forall i :: 0 <= i < |Designators(s)| ==> PlainRefdes(Designators(s)[i])
    ensures var sorted := SortBy(Designators(s), RefdesLe);
            && multiset(sorted) == multiset(Designators(s))
            && SortRefdesList(s) == Ok(MapSeq(Canonical, sorted))
            && forall i, j :: 0 <= i < j < |sorted| && Prefix(sorted[i]) == Prefix(sorted[j])
                 && |TrailingDigits(sorted[i])| <= 8 && |TrailingDigits(sorted[j])| <= 8
                 ==> Value(TrailingDigits(sorted[i])) <= Value(TrailingDigits(sorted[j]))
  {
    PlainSorted(Designators(s));
  }

  lemma PlainSorted(ds: seq<string>)
    requires forall i :: 0 <= i < |ds| ==> PlainRefdes(ds[i])
    ensures var sorted := SortBy(ds, RefdesLe);
            && SortDesignators(ds) == Ok(MapSeq(Canonical, sorted))
            && forall i, j :: 0 <= i < j < |sorted| && Prefix(sorted[i]) == Prefix(sorted[j])
                 && |TrailingDigits(sorted[i])| <= 8 && |TrailingDigits(sorted[j])| <= 8
                 ==> Value(TrailingDigits(sorted[i])) <= Value(TrailingDigits(sorted[j]))
  {
    var sorted := SortBy(ds, RefdesLe);
    SortDesignatorsPlain(ds);
    assert Sorted(sorted, RefdesLe) by {
      RefdesLeTotal();
      SortBySorted(ds, RefdesLe);
    }
    forall k | 0 <= k < |sorted| ensures PlainRefdes(sorted[k]) {
      assert sorted[k] in multiset(ds);
    }
    SortedNumeric(sorted);
  }
}
