/**
 * The replacement template of Python 2's `re.sub` (`sre_parse.parse_template`
 * and `expand_template`): a backslash in the replacement text starts an
 * escape, an octal character or a group reference, and the template is read
 * in full before any match is replaced. The declaration pattern of the
 * schematic pass has no groups, so only group 0, the whole match, can be
 * filled in.
 */
module Template {
  import opened Results
  import opened Text

  /** A piece of a parsed template: a literal character, or a reference to a group of the match. */
  datatype Piece = Chr(c: char) | Group(index: nat)

  predicate IsOctDigit(c: char) { '0' <= c <= '7' }

  /** The characters the escapes `\a \b \f \n \r \t \v \\` stand for. */
  function EscapeChar(c: char): Option<char>
  {
    match c
    case 'a' => Some('\U{7}')
    case 'b' => Some('\U{8}')
    case 'f' => Some('\U{C}')
    case 'n' => Some('\n')
    case 'r' => Some('\r')
    case 't' => Some('\t')
    case 'v' => Some('\U{B}')
    case '\\' => Some('\\')
    case _ => None
  }

  function OctValue(ds: string): nat
    requires forall i :: 0 <= i < |ds| ==> IsOctDigit(ds[i])
    decreases |ds|
  {
    if ds == [] then 0
    else
      var last := ds[|ds| - 1];
      assert IsOctDigit(last);
      OctValue(ds[..|ds| - 1]) * 8 + DigitValue(last)
  }

  /** `chr(int(ds, 8) & 0xff)`. */
  function OctChar(ds: string): char
    requires forall i :: 0 <= i < |ds| ==> IsOctDigit(ds[i])
  {
    (OctValue(ds) % 256) as char
  }

  // ---------------------------------------------------------------------------
  // Python 2 `int(name)` and the test on group names

  function SkipSpace(s: string): (t: string)
    decreases |s|
  {
    if s != [] && IsSpace(s[0]) then SkipSpace(s[1..]) else s
  }

  function SkipSpaceRight(s: string): (t: string)
    decreases |s|
  {
    if s != [] && IsSpace(s[|s| - 1]) then SkipSpaceRight(s[..|s| - 1]) else s
  }

  /**
   * Python 2 `int(name)` on a byte string: blanks, an optional sign, blanks,
   * decimal digits and blanks; `None` where `int` raises ValueError.
   */
  function Int(name: string): Option<int>
  {
    var a := SkipSpace(name);
    var signed := a != [] && (a[0] == '+' || a[0] == '-');
    var d := SkipSpaceRight(SkipSpace(if signed then a[1..] else a));
    if d != [] && AllDigits(d) then
      var v: int := Value(d);
      Some(if signed && a[0] == '-' then -v else v)
    else None
  }

  predicate IsIdentChar(c: char) { IsLetter(c) || c == '_' }

  /** `sre_parse.isname`: a letter or underscore, then letters, digits and underscores. */
  predicate IsName(name: string)
  {
    name != [] && IsIdentChar(name[0])
    && forall i :: 1 <= i < |name| ==> IsIdentChar(name[i]) || IsDigit(name[i])
  }

  /**
   * The group `\g<name>` refers to: an empty or negative name or one that is
   * no identifier is `re.error`, and an identifier is an unknown group name
   * (IndexError), since the pattern names no group.
   */
  function GroupIndex(name: string): Result<nat>
  {
    if name == [] then Err(ReError)
    else match Int(name)
      case Some(v) => if v < 0 then Err(ReError) else Ok(v)
      case None => if IsName(name) then Err(IndexError) else Err(ReError)
  }

  // ---------------------------------------------------------------------------
  // Parsing and filling in

  function Prepend(p: Piece, rest: Result<seq<Piece>>): Result<seq<Piece>>
  {
    if rest.Err? then rest else Ok([p] + rest.value)
  }

  /**
   * `parse_template` on the rest `t` of the template. The tokenizer reads
   * one token ahead, a backslash with the character after it being one
   * token, so a lone backslash at the end is `re.error` as soon as the
   * token before it is read.
   */
  function Parse(t: string): Result<seq<Piece>>
    decreases |t|
  {
    if t == [] then Ok([])
    else if t == ['\\'] then Err(ReError)
    else if t[0] != '\\' then Prepend(Chr(t[0]), Parse(t[1..]))
    else
      var c, rest := t[1], t[2..];
      if c == 'g' then
        if rest != [] && rest[0] == '<' then ParseName(rest[1..], []) else Err(ReError)
      else if c == '0' then
        var k := if |rest| >= 1 && IsOctDigit(rest[0]) then (if |rest| >= 2 && IsOctDigit(rest[1]) then 2 else 1) else 0;
        Prepend(Chr(OctChar(rest[..k])), Parse(rest[k..]))
      else if IsDigit(c) && rest != [] && IsDigit(rest[0]) then
        if IsOctDigit(c) && IsOctDigit(rest[0]) && |rest| >= 2 && IsOctDigit(rest[1]) then
          Prepend(Chr(OctChar([c] + rest[..2])), Parse(rest[2..]))
        else Prepend(Group(10 * DigitValue(c) + DigitValue(rest[0])), Parse(rest[1..]))
      else if IsDigit(c) then Prepend(Group(DigitValue(c)), Parse(rest))
      else if EscapeChar(c).Some? then Prepend(Chr(EscapeChar(c).value), Parse(rest))
      else Prepend(Chr('\\'), Prepend(Chr(c), Parse(rest)))
  }

  /**
   * The name of `\g<...>`, read token by token up to the first `>`; the token
   * after `>` is read before the name is looked at.
   */
  function ParseName(u: string, name: string): Result<seq<Piece>>
    decreases |u|
  {
    if u == [] || u == ['\\'] then Err(ReError)
    else if u[0] == '>' then
      if u[1..] == ['\\'] then Err(ReError)
      else match GroupIndex(name)
        case Err(f) => Err(f)
        case Ok(i) => Prepend(Group(i), Parse(u[1..]))
    else if u[0] == '\\' then ParseName(u[2..], name + u[..2])
    else ParseName(u[1..], name + [u[0]])
  }

  /** Every group reference is to group 0: a pattern without groups has no other. */
  predicate WholeMatchOnly(ps: seq<Piece>)
  {
    forall i :: 0 <= i < |ps| ==> ps[i].Group? ==> ps[i].index == 0
  }

  /** `expand_template` for the match `m`, group 0 being the whole match. */
  function Fill(ps: seq<Piece>, m: string): string
    decreases |ps|
  {
    if ps == [] then []
    else (match ps[0] case Chr(c) => [c] case Group(_) => m) + Fill(ps[1..], m)
  }

  /** The pieces of a text taken literally. */
  function Chars(t: string): seq<Piece>
  {
    seq(|t|, i requires 0 <= i < |t| => Chr(t[i]))
  }

  /** A text doubled at every backslash, so that a template stands for it. */
  function Escape(s: string): (t: string)
    ensures |t| >= |s|
    decreases |s|
  {
    if s == [] then [] else (if s[0] == '\\' then "\\\\" else [s[0]]) + Escape(s[1..])
  }

  // ---------------------------------------------------------------------------
  // Properties

  /** A template without a backslash is read as its own characters. */
  lemma {:induction false} LiteralTemplate(t: string)
    requires '\\' !in t
    ensures Parse(t) == Ok(Chars(t))
    decreases |t|
  {
    if t != [] {
      LiteralTemplate(t[1..]);
      assert t[0] != '\\' && t != ['\\'];
      assert Parse(t) == Prepend(Chr(t[0]), Parse(t[1..]));
      assert Chars(t) == [Chr(t[0])] + Chars(t[1..]);
    } else {
      assert Chars(t) == [];
    }
  }

  /** Filling in literal pieces gives back their text, whatever the match. */
  lemma {:induction false} FillChars(t: string, m: string)
    ensures WholeMatchOnly(Chars(t)) && Fill(Chars(t), m) == t
    decreases |t|
  {
    if t != [] {
      FillChars(t[1..], m);
      assert Chars(t)[1..] == Chars(t[1..]);
    }
  }

  /** Doubling every backslash makes any text a template that stands for itself. */
  lemma {:induction false} ParseEscape(s: string)
    ensures Parse(Escape(s)) == Ok(Chars(s))
    decreases |s|
  {
    if s != [] {
      ParseEscape(s[1..]);
      var t := Escape(s);
      assert Chars(s) == [Chr(s[0])] + Chars(s[1..]);
      if s[0] == '\\' {
        assert t == ['\\', '\\'] + Escape(s[1..]);
        ParseKnownEscape('\\', Escape(s[1..]));
      } else {
        assert t[0] == s[0] && t[1..] == Escape(s[1..]);
        assert Parse(t) == Prepend(Chr(s[0]), Parse(t[1..]));
      }
    } else {
      assert Chars(s) == [];
    }
  }

  lemma ParseEmpty()
    ensures Parse([]) == Ok([])
  {
  }

  /** `\a \b \f \n \r \t \v \\` stand for one character each. */
  lemma ParseKnownEscape(c: char, rest: string)
    requires EscapeChar(c).Some?
    ensures Parse(['\\', c] + rest) == Prepend(Chr(EscapeChar(c).value), Parse(rest))
  {
    assert (['\\', c] + rest)[2..] == rest;
  }

  /** Any other escape that is neither a digit nor `\g` is kept as written, backslash and all. */
  lemma ParseUnknownEscape(c: char, rest: string)
    requires c != 'g' && !IsDigit(c) && EscapeChar(c).None?
    ensures Parse(['\\', c] + rest) == Prepend(Chr('\\'), Prepend(Chr(c), Parse(rest)))
  {
    assert (['\\', c] + rest)[2..] == rest;
  }

  /** `\1` to `\9` not followed by a digit refer to a group the pattern lacks, so filling them in fails. */
  lemma ParseGroupDigit(c: char, rest: string)
    requires '1' <= c <= '9' && (rest == [] || !IsDigit(rest[0]))
    ensures Parse(['\\', c] + rest) == Prepend(Group(DigitValue(c)), Parse(rest))
    ensures Parse(['\\', c] + rest).Ok? ==> !WholeMatchOnly(Parse(['\\', c] + rest).value)
  {
    assert (['\\', c] + rest)[2..] == rest;
    var r := Parse(['\\', c] + rest);
    if r.Ok? {
      assert r.value[0] == Group(DigitValue(c));
    }
  }

  /** Three octal digits are one character: `\101` is `A`. */
  lemma OctalExample()
    ensures Parse("\\101") == Ok([Chr('A')])
  {
    ParseEmpty();
    var e: seq<Piece> := [];
    assert "101"[..2] == "10" && "10"[..1] == "1" && "1"[..0] == [];
    assert OctValue("1") == 1 && OctValue("10") == 8 && OctValue("101") == 65;
    var t := "\\101";
    assert t[2..][..2] == "01" && [t[1]] + "01" == "101" && t[2..][2..] == [];
    assert Parse(t) == Prepend(Chr(OctChar("101")), Ok(e));
    assert [Chr('A')] + e == [Chr('A')];
  }

  /** `\g<0>` is the whole match. */
  lemma WholeMatchExample()
    ensures Parse("\\g<0>") == Ok([Group(0)])
  {
    ParseEmpty();
    var e: seq<Piece> := [];
    assert ParseName("0>", []) == ParseName(">", "0");
    assert SkipSpace("0") == "0" && SkipSpaceRight("0") == "0" && Value("0") == 0;
    assert Int("0") == Some(0);
    assert ParseName(">", "0") == Prepend(Group(0), Ok(e));
    assert [Group(0)] + e == [Group(0)];
  }

  /** A group name that is an identifier is unknown: IndexError. */
  lemma UnknownNameExample()
    ensures Parse("\\g<x>") == Err(IndexError)
  {
    assert ParseName("x>", []) == ParseName(">", "x");
    assert Int("x") == None;
  }

  /** A lone backslash right after the `>` is read before the name is looked at: `re.error`. */
  lemma LateBackslashExample()
    ensures Parse("\\g<x>\\") == Err(ReError)
  {
    assert ParseName("x>\\", []) == ParseName(">\\", "x");
  }

  /** A negative group number is `re.error`. */
  lemma NegativeGroupExample()
    ensures Parse("\\g<-1>") == Err(ReError)
  {
    assert ParseName("-1>", []) == ParseName("1>", "-") == ParseName(">", "-1");
    assert SkipSpace("-1") == "-1" && "-1"[1..] == "1";
    assert SkipSpace("1") == "1" && SkipSpaceRight("1") == "1";
    assert "1"[..0] == [] && Value("1") == 1;
    assert Int("-1") == Some(-1);
  }
}
