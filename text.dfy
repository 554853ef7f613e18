/**
 * The string operations of Python that the scripts use, written out over
 * `seq<char>`: `str.replace`, `str.split`, `str.join`, `str.split()` on
 * whitespace, string comparison, `str(int)` and `int(str)` on digit strings,
 * `str.zfill` and `str.lower` on ASCII.
 */
module Text {

  /** The private escape byte the rename passes put in front of every identifier they write. */
  const Marker: char := '\U{1}'

  predicate IsLetter(c: char) { 'a' <= c <= 'z' || 'A' <= c <= 'Z' }

  predicate IsDigit(c: char) { '0' <= c <= '9' }

  /** The class `[ \t]` of the schematic declaration pattern. */
  predicate IsBlank(c: char) { c == ' ' || c == '\t' }

  /** Whitespace for the Python 2 byte-string `str.split()`. */
  predicate IsSpace(c: char)
  {
    c == ' ' || c == '\t' || c == '\n' || c == '\r' || c == '\U{B}' || c == '\U{C}'
  }

  /**
   * Whitespace for the Python 3 `str.strip()`, as `str.isspace()` decides it:
   * `\t` to `\r`, the separators `\x1c` to `\x1f`, the space, and the
   * Unicode spaces and line and paragraph separators.
   */
  predicate IsStrSpace(c: char)
  {
    '\t' <= c <= '\r' || '\U{1C}' <= c <= ' ' || c == '\U{85}' || c == '\U{A0}' || c == '\U{1680}'
    || '\U{2000}' <= c <= '\U{200A}' || c == '\U{2028}' || c == '\U{2029}' || c == '\U{202F}'
    || c == '\U{205F}' || c == '\U{3000}'
  }

  predicate AllDigits(s: string) { forall i :: 0 <= i < |s| ==> IsDigit(s[i]) }

  predicate AllBlank(s: string) { forall i :: 0 <= i < |s| ==> IsBlank(s[i]) }

  predicate StartsWith(s: string, p: string) { |p| <= |s| && s[..|p|] == p }

  // ---------------------------------------------------------------------------
  // str.replace

  /** Python `s.replace(p, r)` for a non-empty `p`: every leftmost, non-overlapping occurrence. */
  function Replace(s: string, p: string, r: string): string
    requires p != []
    decreases |s|
  {
    if |s| < |p| then s
    else if s[..|p|] == p then r + Replace(s[|p|..], p, r)
    else [s[0]] + Replace(s[1..], p, r)
  }

  lemma SplitAt(s: string, k: nat)
    requires k <= |s|
    ensures s == s[..k] + s[k..]
  {
  }

  /** No occurrence of `p` starts in `s`: `str.replace` leaves `s` alone. */
  lemma {:induction false} ReplaceAbsent(s: string, p: string, r: string)
    requires p != []
    requires forall i :: 0 <= i < |s| ==> !StartsWith(s[i..], p)
    ensures Replace(s, p, r) == s
    decreases |s|
  {
    if |s| >= |p| {
      assert s[0..] == s;
      forall i | 0 <= i < |s[1..]| ensures !StartsWith(s[1..][i..], p) {
        assert s[1..][i..] == s[i + 1..];
      }
      ReplaceAbsent(s[1..], p, r);
      assert s == [s[0]] + s[1..];
    }
  }

  /** A pattern that does not occur at all, by its first character. */
  lemma ReplaceAbsentHead(s: string, p: string, r: string)
    requires p != [] && p[0] !in s
    ensures Replace(s, p, r) == s
  {
    forall i | 0 <= i < |s| ensures !StartsWith(s[i..], p) {
      assert s[i..][0] == s[i];
    }
    ReplaceAbsent(s, p, r);
  }

  /**
   * When no occurrence of `p` straddles the boundary between `a` and `b`,
   * replacing in `a + b` is replacing in each part.
   */
  lemma {:induction false} ReplaceConcat(a: string, b: string, p: string, r: string)
    requires p != []
    requires forall i :: 0 <= i < |a| && |a| < i + |p| ==> !StartsWith((a + b)[i..], p)
    ensures Replace(a + b, p, r) == Replace(a, p, r) + Replace(b, p, r)
    decreases |a|
  {
    var s := a + b;
    if a == [] {
      assert s == b;
    } else if |s| < |p| {
      assert Replace(b, p, r) == b;
    } else if s[..|p|] == p {
      ConcatAtHead(a, b, p);
      ReplaceConcat(a[|p|..], b, p, r);
      ReplaceConcatHead(a, b, p, r);
    } else {
      ConcatSkip(a, b, p);
      ReplaceConcat(a[1..], b, p, r);
      ReplaceConcatSkip(a, b, p, r);
    }
  }

  /** An occurrence at the head of `a`: one step of the scan on both sides. */
  lemma ReplaceConcatHead(a: string, b: string, p: string, r: string)
    requires p != [] && |p| <= |a| && a[..|p|] == p
    requires Replace(a[|p|..] + b, p, r) == Replace(a[|p|..], p, r) + Replace(b, p, r)
    ensures Replace(a + b, p, r) == Replace(a, p, r) + Replace(b, p, r)
  {
    assert (a + b)[..|p|] == p;
    assert (a + b)[|p|..] == a[|p|..] + b;
  }

  /** No occurrence at the head of `a + b`: its first character is kept on both sides. */
  lemma ReplaceConcatSkip(a: string, b: string, p: string, r: string)
    requires p != [] && a != [] && |p| <= |a + b| && (a + b)[..|p|] != p
    requires Replace(a[1..] + b, p, r) == Replace(a[1..], p, r) + Replace(b, p, r)
    ensures Replace(a + b, p, r) == Replace(a, p, r) + Replace(b, p, r)
  {
    var s, x, y := a + b, Replace(a[1..], p, r), Replace(b, p, r);
    assert s[0] == a[0] && s[1..] == a[1..] + b;
    assert Replace(s, p, r) == [a[0]] + (x + y);
    assert [a[0]] + (x + y) == ([a[0]] + x) + y;
    if |a| >= |p| {
      assert a[..|p|] == s[..|p|];
      assert Replace(a, p, r) == [a[0]] + x;
    } else {
      assert x == a[1..];
      assert Replace(a, p, r) == a == [a[0]] + a[1..];
    }
  }

  /** An occurrence at the head of `a + b` lies within `a`, and the rest keeps the straddle condition. */
  lemma ConcatAtHead(a: string, b: string, p: string)
    requires p != [] && a != [] && |p| <= |a + b| && (a + b)[..|p|] == p
    requires forall i :: 0 <= i < |a| && |a| < i + |p| ==> !StartsWith((a + b)[i..], p)
    ensures |p| <= |a| && a[..|p|] == p && (a + b)[|p|..] == a[|p|..] + b
    ensures forall i :: 0 <= i < |a[|p|..]| && |a[|p|..]| < i + |p| ==> !StartsWith((a[|p|..] + b)[i..], p)
  {
    var s := a + b;
    assert s[0..] == s;
    assert |p| <= |a|;
    assert a[..|p|] == p;
    forall i | 0 <= i < |a[|p|..]| && |a[|p|..]| < i + |p|
      ensures !StartsWith((a[|p|..] + b)[i..], p)
    {
      assert (a[|p|..] + b)[i..] == s[i + |p|..];
    }
  }

  /** Dropping the first character of `a` keeps the straddle condition. */
  lemma ConcatSkip(a: string, b: string, p: string)
    requires p != [] && a != []
    requires forall i :: 0 <= i < |a| && |a| < i + |p| ==> !StartsWith((a + b)[i..], p)
    ensures (a + b)[1..] == a[1..] + b
    ensures forall i :: 0 <= i < |a[1..]| && |a[1..]| < i + |p| ==> !StartsWith((a[1..] + b)[i..], p)
  {
    var s := a + b;
    forall i | 0 <= i < |a[1..]| && |a[1..]| < i + |p|
      ensures !StartsWith((a[1..] + b)[i..], p)
    {
      assert (a[1..] + b)[i..] == s[i + 1..];
    }
  }

  /** `s` that starts with the pattern: the first occurrence is replaced. */
  lemma ReplaceAtHead(p: string, rest: string, r: string)
    requires p != []
    ensures Replace(p + rest, p, r) == r + Replace(rest, p, r)
  {
    assert (p + rest)[..|p|] == p;
    assert (p + rest)[|p|..] == rest;
  }

  // ---------------------------------------------------------------------------
  // Stripping the escape byte

  /** `s` without its escape bytes. */
  function DropMarkers(s: string): (t: string)
    ensures Marker !in t
    ensures |t| <= |s|
    decreases |s|
  {
    if s == [] then [] else (if s[0] == Marker then [] else [s[0]]) + DropMarkers(s[1..])
  }

  /** Python `s.replace("\x01", "")`. */
  function Strip(s: string): string
  {
    Replace(s, [Marker], [])
  }

  /** The final strip of both rename passes removes exactly the escape bytes. */
  lemma {:induction false} StripDropsMarkers(s: string)
    ensures Strip(s) == DropMarkers(s)
    decreases |s|
  {
    if s != [] {
      StripDropsMarkers(s[1..]);
      if s[0] == Marker {
        assert s[..1] == [Marker];
      } else {
        assert s[..1] != [Marker];
      }
    }
  }

  lemma {:induction false} DropMarkersAppend(a: string, b: string)
    ensures DropMarkers(a + b) == DropMarkers(a) + DropMarkers(b)
    decreases |a|
  {
    if a != [] {
      assert (a + b)[0] == a[0];
      assert (a + b)[1..] == a[1..] + b;
      DropMarkersAppend(a[1..], b);
    } else {
      assert a + b == b;
    }
  }

  lemma {:induction false} DropMarkersClean(s: string)
    requires Marker !in s
    ensures DropMarkers(s) == s
    decreases |s|
  {
    if s != [] {
      DropMarkersClean(s[1..]);
      assert s == [s[0]] + s[1..];
    }
  }

  /**
   * Replacing a pattern by a text that differs from it only in escape bytes
   * changes nothing once the escape bytes are stripped.
   */
  lemma {:induction false} DropMarkersReplace(s: string, p: string, r: string)
    requires p != [] && DropMarkers(r) == DropMarkers(p)
    ensures DropMarkers(Replace(s, p, r)) == DropMarkers(s)
    decreases |s|
  {
    if |s| < |p| {
    } else if s[..|p|] == p {
      DropMarkersReplace(s[|p|..], p, r);
      DropMarkersAppend(r, Replace(s[|p|..], p, r));
      SplitAt(s, |p|);
      DropMarkersAppend(p, s[|p|..]);
    } else {
      DropMarkersReplace(s[1..], p, r);
      DropMarkersAppend([s[0]], Replace(s[1..], p, r));
      SplitAt(s, 1);
      assert s[..1] == [s[0]];
      DropMarkersAppend([s[0]], s[1..]);
    }
  }

  // ---------------------------------------------------------------------------
  // str.split(sep), sep.join(parts)

  /** Python `s.split(c)` for a one-character separator. */
  function Split(s: string, c: char): (parts: seq<string>)
    ensures |parts| >= 1
    decreases |s|
  {
    if s == [] then [[]]
    else if s[0] == c then [[]] + Split(s[1..], c)
    else var rest := Split(s[1..], c); [[s[0]] + rest[0]] + rest[1..]
  }

  /** Python `sep.join(parts)`. */
  function Join(parts: seq<string>, sep: string): string
    decreases |parts|
  {
    if parts == [] then []
    else if |parts| == 1 then parts[0]
    else parts[0] + sep + Join(parts[1..], sep)
  }

  /** Splitting a text that does not contain the separator. */
  lemma {:induction false} SplitPrefix(a: string, b: string, c: char)
    requires c !in a
    ensures Split(a + b, c) == [a + Split(b, c)[0]] + Split(b, c)[1..]
    decreases |a|
  {
    if a != [] {
      assert (a + b)[1..] == a[1..] + b;
      SplitPrefix(a[1..], b, c);
      assert [a[0]] + (a[1..] + Split(b, c)[0]) == a + Split(b, c)[0];
    } else {
      assert a + b == b;
      var parts := Split(b, c);
      assert [] + parts[0] == parts[0];
      assert parts == [parts[0]] + parts[1..];
    }
  }

  /** Splitting what `join` built gives back the parts. */
  lemma {:induction false} SplitJoin(parts: seq<string>, c: char)
    requires |parts| >= 1
    requires forall i :: 0 <= i < |parts| ==> c !in parts[i]
    ensures Split(Join(parts, [c]), c) == parts
    decreases |parts|
  {
    if |parts| == 1 {
      SplitPrefix(parts[0], [], c);
      assert parts[0] + [] == parts[0];
      assert Split([], c) == [[]];
      assert parts == [parts[0]];
    } else {
      var rest := Join(parts[1..], [c]);
      SplitJoin(parts[1..], c);
      assert parts[0] + [c] + rest == parts[0] + ([c] + rest);
      SplitPrefix(parts[0], [c] + rest, c);
      assert ([c] + rest)[0] == c && ([c] + rest)[1..] == rest;
      assert Split([c] + rest, c) == [[]] + Split(rest, c);
      assert parts[0] + [] == parts[0];
      assert parts == [parts[0]] + parts[1..];
    }
  }

  /** Joining the parts of a split gives back the text. */
  lemma {:induction false} JoinSplit(s: string, c: char)
    ensures Join(Split(s, c), [c]) == s
    ensures forall i :: 0 <= i < |Split(s, c)| ==> c !in Split(s, c)[i]
    decreases |s|
  {
    if s != [] {
      JoinSplit(s[1..], c);
      var rest := Split(s[1..], c);
      if s[0] == c {
        assert Split(s, c)[1..] == rest;
        assert s == [c] + s[1..];
      } else {
        var parts := Split(s, c);
        assert parts[1..] == rest[1..];
        if |rest| == 1 {
          assert s == [s[0]] + rest[0];
        } else {
          assert rest == [rest[0]] + rest[1..];
          assert Join(rest, [c]) == rest[0] + [c] + Join(rest[1..], [c]);
          assert s == [s[0]] + s[1..];
        }
      }
    }
  }

  // ---------------------------------------------------------------------------
  // str.split() on whitespace

  /** The longest prefix of `s` without whitespace. */
  function Word(s: string): (w: string)
    ensures |w| <= |s| && w == s[..|w|]
    ensures forall i :: 0 <= i < |w| ==> !IsSpace(w[i])
    ensures |w| < |s| ==> IsSpace(s[|w|])
    ensures s != [] && !IsSpace(s[0]) ==> w != []
    decreases |s|
  {
    if s == [] || IsSpace(s[0]) then [] else [s[0]] + Word(s[1..])
  }

  /** Python 2 `s.split()`: the whitespace-separated words of `s`. */
  function Tokens(s: string): seq<string>
    decreases |s|
  {
    if s == [] then []
    else if IsSpace(s[0]) then Tokens(s[1..])
    else [Word(s)] + Tokens(s[|Word(s)|..])
  }

  /** A word followed by a space, or by nothing, is the word `split()` takes. */
  lemma {:induction false} WordOf(w: string, rest: string)
    requires forall i :: 0 <= i < |w| ==> !IsSpace(w[i])
    requires rest == [] || IsSpace(rest[0])
    ensures Word(w + rest) == w
    decreases |w|
  {
    if w == [] {
      assert w + rest == rest;
    } else {
      assert (w + rest)[1..] == w[1..] + rest;
      WordOf(w[1..], rest);
      assert w == [w[0]] + w[1..];
    }
  }

  /** `split()` of a word, a space and a rest. */
  lemma TokensCons(w: string, sp: char, rest: string)
    requires w != [] && forall i :: 0 <= i < |w| ==> !IsSpace(w[i])
    requires IsSpace(sp)
    ensures Tokens(w + [sp] + rest) == [w] + Tokens(rest)
  {
    var s := w + [sp] + rest;
    assert s == w + ([sp] + rest);
    WordOf(w, [sp] + rest);
    assert s[|w|..] == [sp] + rest;
    assert ([sp] + rest)[1..] == rest;
  }

  /** `split()` of a single word. */
  lemma TokensWord(w: string)
    requires w != [] && forall i :: 0 <= i < |w| ==> !IsSpace(w[i])
    ensures Tokens(w) == [w]
  {
    WordOf(w, []);
    assert w + [] == w;
    assert w[|w|..] == [];
  }

  /** A character where no occurrence starts is kept, and the scan goes on after it. */
  lemma ReplaceSkip(c: char, s: string, p: string, r: string)
    requires p != [] && !StartsWith([c] + s, p)
    ensures Replace([c] + s, p, r) == [c] + Replace(s, p, r)
  {
    assert ([c] + s)[1..] == s;
  }

  /** Text in which the pattern's first character never occurs is kept as it is, and the scan goes on after it. */
  lemma ReplaceClearHead(a: string, b: string, p: string, r: string)
    requires p != [] && p[0] !in a
    ensures Replace(a + b, p, r) == a + Replace(b, p, r)
  {
    forall i | 0 <= i < |a| && |a| < i + |p| ensures !StartsWith((a + b)[i..], p) {
      assert (a + b)[i..][0] == a[i];
    }
    ReplaceConcat(a, b, p, r);
    ReplaceAbsentHead(a, p, r);
  }

  /** A head where no occurrence of the pattern starts is kept, and the scan goes on after it. */
  lemma ReplaceKeepHead(u: string, rest: string, p: string, r: string)
    requires p != []
    requires forall j :: 0 <= j < |u| ==> !StartsWith((u + rest)[j..], p)
    ensures Replace(u + rest, p, r) == u + Replace(rest, p, r)
  {
    forall j | 0 <= j < |u| ensures !StartsWith(u[j..], p) {
      assert (u + rest)[j..] == u[j..] + rest;
      if |p| <= |u[j..]| {
        assert (u[j..] + rest)[..|p|] == u[j..][..|p|];
      }
    }
    ReplaceAbsent(u, p, r);
    ReplaceConcat(u, rest, p, r);
  }

  /** `str.replace` applied to each line of a list. */
  function ReplaceEach(lines: seq<string>, p: string, r: string): (out: seq<string>)
    requires p != []
    ensures |out| == |lines|
    ensures forall i :: 0 <= i < |lines| ==> out[i] == Replace(lines[i], p, r)
  {
    seq(|lines|, i requires 0 <= i < |lines| => Replace(lines[i], p, r))
  }

  lemma ReplaceEachTail(lines: seq<string>, p: string, r: string)
    requires p != [] && lines != []
    ensures ReplaceEach(lines, p, r)[1..] == ReplaceEach(lines[1..], p, r)
  {
  }

  /** `join` of two or more parts: the first, the separator, and the join of the rest. */
  lemma JoinCons(parts: seq<string>, sep: string)
    requires |parts| >= 2
    ensures Join(parts, sep) == parts[0] + (sep + Join(parts[1..], sep))
  {
    var rest := Join(parts[1..], sep);
    assert parts[0] + sep + rest == parts[0] + (sep + rest);
  }

  /** A pattern without a newline never straddles a line break. */
  lemma ReplaceLineBreak(a: string, rest: string, p: string, r: string)
    requires p != [] && '\n' !in p
    ensures Replace(a + ("\n" + rest), p, r) == Replace(a, p, r) + ("\n" + Replace(rest, p, r))
  {
    var b := "\n" + rest;
    forall i | 0 <= i < |a| && |a| < i + |p| ensures !StartsWith((a + b)[i..], p) {
      assert (a + b)[i..][|a| - i] == '\n';
    }
    ReplaceConcat(a, b, p, r);
    ReplaceClearHead("\n", rest, p, r);
  }

  /** Replacing a pattern without a newline in newline-joined lines is replacing line by line. */
  lemma {:induction false} ReplaceLines(lines: seq<string>, p: string, r: string)
    requires p != [] && '\n' !in p
    ensures Replace(Join(lines, "\n"), p, r) == Join(ReplaceEach(lines, p, r), "\n")
    decreases |lines|
  {
    if |lines| >= 2 {
      var each := ReplaceEach(lines, p, r);
      JoinCons(lines, "\n");
      ReplaceLineBreak(lines[0], Join(lines[1..], "\n"), p, r);
      ReplaceLines(lines[1..], p, r);
      ReplaceEachTail(lines, p, r);
      JoinCons(each, "\n");
    }
  }

  // ---------------------------------------------------------------------------
  // String order

  /** Python `a < b` on strings: lexicographic by character code, a proper prefix first. */
  predicate StrLt(a: string, b: string)
    decreases |a|
  {
    b != [] && (a == [] || a[0] < b[0] || (a[0] == b[0] && StrLt(a[1..], b[1..])))
  }

  predicate StrLe(a: string, b: string) { a == b || StrLt(a, b) }

  lemma {:induction false} StrLtIrreflexive(a: string)
    ensures !StrLt(a, a)
    decreases |a|
  {
    if a != [] { StrLtIrreflexive(a[1..]); }
  }

  lemma {:induction false} StrLtTransitive(a: string, b: string, c: string)
    requires StrLt(a, b) && StrLt(b, c)
    ensures StrLt(a, c)
    decreases |a|
  {
    if a != [] && a[0] == b[0] && b[0] == c[0] {
      StrLtTransitive(a[1..], b[1..], c[1..]);
    }
  }

  lemma {:induction false} StrLtTotal(a: string, b: string)
    ensures StrLt(a, b) || a == b || StrLt(b, a)
    decreases |a|
  {
    if a != [] && b != [] && a[0] == b[0] {
      StrLtTotal(a[1..], b[1..]);
      if a[1..] == b[1..] {
        assert a == [a[0]] + a[1..] && b == [b[0]] + b[1..];
      }
    }
  }

  lemma StrLtAsymmetric(a: string, b: string)
    requires StrLt(a, b)
    ensures !StrLt(b, a)
  {
    if StrLt(b, a) {
      StrLtTransitive(a, b, a);
      StrLtIrreflexive(a);
    }
  }

  /** `StrLe` is a total order: what Python's `sorted` uses on strings. */
  lemma StrLeTotalOrder()
    ensures forall a, b :: StrLe(a, b) || StrLe(b, a)
    ensures forall a, b :: StrLe(a, b) && StrLe(b, a) ==> a == b
    ensures forall a, b, c :: StrLe(a, b) && StrLe(b, c) ==> StrLe(a, c)
  {
    forall a, b ensures StrLe(a, b) || StrLe(b, a) { StrLtTotal(a, b); }
    forall a, b | StrLe(a, b) && StrLe(b, a) ensures a == b {
      if a != b { StrLtAsymmetric(a, b); }
    }
    forall a, b, c | StrLe(a, b) && StrLe(b, c) ensures StrLe(a, c) {
      if a != b && b != c { StrLtTransitive(a, b, c); }
    }
  }

  // ---------------------------------------------------------------------------
  // Decimal numerals: str(n), int(s), s.zfill(w)

  function DigitChar(d: nat): (c: char)
    requires d < 10
    ensures IsDigit(c)
  {
    (48 + d) as char
  }

  function DigitValue(c: char): (d: nat)
    requires IsDigit(c)
    ensures d < 10
  {
    c as int - 48
  }

  function Pow10(k: nat): (p: nat)
    ensures p >= 1
  {
    if k == 0 then 1 else 10 * Pow10(k - 1)
  }

  /** Python `str(n)` for a natural number: its decimal digits, without leading zeros. */
  function Dec(n: nat): (s: string)
    ensures s != [] && AllDigits(s)
    ensures s[0] == '0' ==> n == 0
    decreases n
  {
    if n < 10 then [DigitChar(n)] else Dec(n / 10) + [DigitChar(n % 10)]
  }

  /** Python `int(s)` for a string of decimal digits. */
  function Value(s: string): nat
    requires AllDigits(s)
    decreases |s|
  {
    if s == [] then 0 else Value(s[..|s| - 1]) * 10 + DigitValue(s[|s| - 1])
  }

  /** `int(str(n)) == n`. */
  lemma {:induction false} ValueDec(n: nat)
    ensures Value(Dec(n)) == n
    decreases n
  {
    if n >= 10 {
      ValueDec(n / 10);
      var s := Dec(n);
      assert s[..|s| - 1] == Dec(n / 10);
    }
  }

  /** Different numbers have different numerals. */
  lemma DecInjective(m: nat, n: nat)
    requires Dec(m) == Dec(n)
    ensures m == n
  {
    ValueDec(m);
    ValueDec(n);
  }

  /** A numeral of length at most `k` stands for a number below `10^k`. */
  lemma {:induction false} ValueBound(s: string)
    requires AllDigits(s)
    ensures Value(s) < Pow10(|s|)
    decreases |s|
  {
    if s != [] {
      ValueBound(s[..|s| - 1]);
      assert Value(s[..|s| - 1]) + 1 <= Pow10(|s| - 1);
    }
  }

  /** The value of a numeral, read from its first digit. */
  lemma {:induction false} ValueFront(s: string)
    requires s != [] && AllDigits(s)
    ensures Value(s) == DigitValue(s[0]) * Pow10(|s| - 1) + Value(s[1..])
    decreases |s|
  {
    var n := |s|;
    if n == 1 {
      assert s[..0] == [] && s[1..] == [];
    } else {
      var init, t := s[..n - 1], s[1..];
      ValueFront(init);
      assert init[0] == s[0];
      assert t[..n - 2] == init[1..] && t[n - 2] == s[n - 1];
      assert Value(t) == Value(init[1..]) * 10 + DigitValue(s[n - 1]);
      FrontDistributes(DigitValue(s[0]), Pow10(n - 2), Value(init[1..]), DigitValue(s[n - 1]));
    }
  }

  lemma FrontDistributes(d: nat, p: nat, v: nat, l: nat)
    ensures (d * p + v) * 10 + l == d * (10 * p) + (v * 10 + l)
  {
  }

  /** `n` zero characters. */
  function Zeros(n: nat): (z: string)
    ensures |z| == n && AllDigits(z)
    ensures forall i :: 0 <= i < n ==> z[i] == '0'
  {
    seq(n, _ => '0')
  }

  /** Python `s.zfill(w)` for a numeral: zeros in front up to width `w`. */
  function ZFill(s: string, w: nat): string
  {
    if |s| < w then Zeros(w - |s|) + s else s
  }

  /** Leading zeros do not change the value of a numeral. */
  lemma {:induction false} ValueLeadingZeros(k: nat, s: string)
    requires AllDigits(s)
    ensures AllDigits(Zeros(k) + s)
    ensures Value(Zeros(k) + s) == Value(s)
    decreases |s|, k
  {
    var t := Zeros(k) + s;
    if s != [] {
      assert t[..|t| - 1] == Zeros(k) + s[..|s| - 1];
      ValueLeadingZeros(k, s[..|s| - 1]);
    } else if k > 0 {
      assert t == Zeros(k);
      assert t[..|t| - 1] == Zeros(k - 1) + [];
      ValueLeadingZeros(k - 1, []);
    } else {
      assert t == [];
    }
  }

  lemma MulMonotone(a: nat, b: nat, p: nat)
    requires a <= b
    ensures a * p <= b * p
  {
  }

  lemma FrontArithmetic(du: nat, dv: nat, p: nat, ru: nat, rv: nat)
    requires du < dv && ru < p
    ensures du * p + ru < dv * p + rv
  {
    MulMonotone(du + 1, dv, p);
    assert (du + 1) * p == du * p + p;
  }

  /** Of two numerals of equal length, the one with the smaller first digit is smaller. */
  lemma FirstDigitDecides(u: string, v: string)
    requires |u| == |v| && u != [] && AllDigits(u) && AllDigits(v)
    requires u[0] < v[0]
    ensures Value(u) < Value(v)
  {
    ValueFront(u);
    ValueFront(v);
    ValueBound(u[1..]);
    FrontArithmetic(DigitValue(u[0]), DigitValue(v[0]), Pow10(|u| - 1), Value(u[1..]), Value(v[1..]));
  }

  /** For numerals of equal length, string order is numeric order. */
  lemma {:induction false} EqualLengthOrder(u: string, v: string)
    requires |u| == |v| && AllDigits(u) && AllDigits(v)
    ensures StrLt(u, v) <==> Value(u) < Value(v)
    decreases |u|
  {
    if u != [] {
      if u[0] < v[0] {
        FirstDigitDecides(u, v);
      } else if v[0] < u[0] {
        FirstDigitDecides(v, u);
      } else {
        EqualLengthOrder(u[1..], v[1..]);
        ValueFront(u);
        ValueFront(v);
      }
    }
  }

  /** A number below `10^k` has at most `k` digits. */
  lemma {:induction false} DecLength(n: nat, k: nat)
    requires k >= 1 && n < Pow10(k)
    ensures |Dec(n)| <= k
    decreases k
  {
    if n >= 10 {
      DecLength(n / 10, k - 1);
    }
  }

  // ---------------------------------------------------------------------------
  // str.lower on ASCII

  function LowerChar(c: char): char
  {
    if 'A' <= c <= 'Z' then (c as int + 32) as char else c
  }

  /**
   * Python `s.lower()`. Only ASCII capitals are folded: no other character
   * lowers to one of `.`, `t`, `x`, so comparisons with ".txt" come out the same.
   */
  function Lower(s: string): (t: string)
    ensures |t| == |s|
  {
    seq(|s|, i requires 0 <= i < |s| => LowerChar(s[i]))
  }
}
