/**
 * What the schematic pass does to a schematic: a schematic is read as lines
 * that are either component declarations `L <type> <designator>` or other
 * text in which designators appear between double quotes. On such a text
 * the pass of `remap_schematic` renames every designator at once: the marker
 * keeps a name written for one rename from being matched by a later one, so
 * swaps and chains come out right, and every other text is left alone.
 */
module SchematicDocument {
  import opened Results
  import opened Text
  import opened Schematic

  /** Characters of a designator such as `R12` or `U_3`. */
  predicate IsDesignatorChar(c: char) { IsLetter(c) || IsDigit(c) || c == '_' }

  predicate IsDesignator(s: string)
  {
    s != [] && forall i :: 0 <= i < |s| ==> IsDesignatorChar(s[i])
  }

  /** A name in the buffer; a `marked` one was written by a rename and has the marker in front. */
  datatype Ref = Ref(name: string, marked: bool)

  function RefText(r: Ref): (t: string)
    ensures r.marked ==> t == [Marker] + r.name
    ensures !r.marked ==> t == r.name
  {
    (if r.marked then [Marker] else []) + r.name
  }

  /** A stretch of text without quotes, or a quoted name. */
  datatype Piece = Raw(text: string) | Quoted(ref: Ref)

  /** A declaration line `L <type> <designator>`, or any other line. */
  datatype Line = Decl(compType: string, ref: Ref) | Plain(pieces: seq<Piece>)

  function PieceText(p: Piece): string
  {
    match p
    case Raw(t) => t
    case Quoted(r) => "\"" + RefText(r) + "\""
  }

  function PiecesText(ps: seq<Piece>): string
    decreases |ps|
  {
    if ps == [] then [] else PieceText(ps[0]) + PiecesText(ps[1..])
  }

  function LineText(l: Line): string
  {
    match l
    case Decl(c, r) => "L " + c + " " + RefText(r)
    case Plain(ps) => PiecesText(ps)
  }

  function LinesText(doc: seq<Line>): (lines: seq<string>)
    ensures |lines| == |doc|
  {
    seq(|doc|, i requires 0 <= i < |doc| => LineText(doc[i]))
  }

  function DocText(doc: seq<Line>): string
  {
    Join(LinesText(doc), "\n")
  }

  // ---------------------------------------------------------------------------
  // Well-formed schematics

  /** A character of ordinary text: no quote, no newline, no marker. */
  predicate TextChar(c: char) { c != '"' && c != '\n' && c != Marker }

  /** Unquoted text between names: it holds a character that no designator has. */
  predicate RawOk(t: string)
  {
    (forall i :: 0 <= i < |t| ==> TextChar(t[i]))
    && exists i :: 0 <= i < |t| && !IsDesignatorChar(t[i])
  }

  /** A quoted value: any text without quote, newline or marker. */
  predicate NameOk(name: string)
  {
    forall i :: 0 <= i < |name| ==> TextChar(name[i])
  }

  predicate PieceOk(p: Piece)
  {
    match p
    case Raw(t) => RawOk(t)
    case Quoted(r) => NameOk(r.name)
  }

  /** The line does not begin with `L` and a blank, as declarations do. */
  predicate HeadOk(ps: seq<Piece>)
  {
    ps == [] || ps[0].Quoted?
    || (|ps[0].text| >= 1 && ps[0].text[0] != 'L')
    || (|ps[0].text| >= 2 && !IsBlank(ps[0].text[1]))
  }

  /**
   * The symbol of a declaration: one word of ordinary text without a
   * backslash, since the pass writes it back through a `re.sub` template.
   */
  predicate CompOk(c: string)
  {
    c != [] && forall i :: 0 <= i < |c| ==> !IsSpace(c[i]) && TextChar(c[i]) && c[i] != '\\'
  }

  predicate LineOk(l: Line)
  {
    match l
    case Decl(c, r) => CompOk(c) && IsDesignator(r.name)
    case Plain(ps) => (forall i :: 0 <= i < |ps| ==> PieceOk(ps[i])) && HeadOk(ps)
  }

  predicate DocOk(doc: seq<Line>)
  {
    |doc| >= 1 && forall i :: 0 <= i < |doc| ==> LineOk(doc[i])
  }

  predicate PiecesUnmarked(ps: seq<Piece>)
  {
    forall i :: 0 <= i < |ps| ==> ps[i].Quoted? ==> !ps[i].ref.marked
  }

  /** No name in the schematic carries the marker. */
  predicate Unmarked(doc: seq<Line>)
  {
    forall i :: 0 <= i < |doc| ==>
      match doc[i]
      case Decl(_, r) => !r.marked
      case Plain(ps) => PiecesUnmarked(ps)
  }

  /** Some declaration line declares `name`. */
  predicate Declared(doc: seq<Line>, name: string)
  {
    exists i :: 0 <= i < |doc| && doc[i].Decl? && doc[i].ref == Ref(name, false)
  }

  /** Every line declaring a designator names the same symbol, as the units of one part do. */
  predicate Uniform(doc: seq<Line>)
  {
    forall i, j ::
      (0 <= i < |doc| && 0 <= j < |doc| && doc[i].Decl? && doc[j].Decl? && doc[i].ref == doc[j].ref)
      ==> doc[i].compType == doc[j].compType
  }

  // ---------------------------------------------------------------------------
  // Renaming the names of a schematic

  function MapPieces(ps: seq<Piece>, f: Ref -> Ref): (out: seq<Piece>)
    ensures |out| == |ps|
    ensures forall i :: 0 <= i < |ps| ==> out[i] == (if ps[i].Raw? then ps[i] else Quoted(f(ps[i].ref)))
    decreases |ps|
  {
    if ps == [] then []
    else [if ps[0].Raw? then ps[0] else Quoted(f(ps[0].ref))] + MapPieces(ps[1..], f)
  }

  function MapLine(l: Line, f: Ref -> Ref): Line
  {
    match l
    case Decl(c, r) => Decl(c, f(r))
    case Plain(ps) => Plain(MapPieces(ps, f))
  }

  function MapDoc(doc: seq<Line>, f: Ref -> Ref): (out: seq<Line>)
    ensures |out| == |doc|
  {
    seq(|doc|, i requires 0 <= i < |doc| => MapLine(doc[i], f))
  }

  lemma MapDocCompose(doc: seq<Line>, f: Ref -> Ref, g: Ref -> Ref, h: Ref -> Ref)
    requires forall r :: h(r) == g(f(r))
    ensures MapDoc(MapDoc(doc, f), g) == MapDoc(doc, h)
  {
    forall i | 0 <= i < |doc| ensures MapLine(MapLine(doc[i], f), g) == MapLine(doc[i], h) {
      if doc[i].Plain? {
        var ps := doc[i].pieces;
        assert MapPieces(MapPieces(ps, f), g) == MapPieces(ps, h);
      }
    }
  }

  /** What one rename does to a name, as the pass treats it. */
  function StepRef(r: Ref, rn: Rename): Ref
  {
    if rn.oldRef != rn.newRef && !r.marked && r.name == rn.oldRef then Ref(rn.newRef, true) else r
  }

  /** A name after the renames so far. */
  function RefAfter(renames: seq<Rename>, r: Ref): Ref
    decreases |renames|
  {
    if renames == [] then r
    else StepRef(RefAfter(renames[..|renames| - 1], r), renames[|renames| - 1])
  }

  /** `Lookup(renames, x)` is the new name of `x`, or `x` when no rename starts from it. */
  function Lookup(renames: seq<Rename>, x: string): string
    decreases |renames|
  {
    if renames == [] then x
    else if renames[|renames| - 1].oldRef == x then renames[|renames| - 1].newRef
    else Lookup(renames[..|renames| - 1], x)
  }

  /** The schematic with every name renamed at once, each name looked up among the original names. */
  function Renamed(doc: seq<Line>, renames: seq<Rename>): seq<Line>
  {
    MapDoc(doc, LookupFn(renames))
  }

  /** The name as it reads once the markers are stripped. */
  function Unmark(r: Ref): Ref { Ref(r.name, false) }

  /** Renaming by the new names looked up among the original names. */
  function LookupFn(renames: seq<Rename>): Ref -> Ref
  {
    (r: Ref) => Ref(Lookup(renames, r.name), false)
  }

  /** Renaming by one rename, as the pass does. */
  function StepFn(rn: Rename): Ref -> Ref
  {
    r => StepRef(r, rn)
  }

  /** Renaming by the renames in turn. */
  function AfterFn(renames: seq<Rename>): Ref -> Ref
  {
    r => RefAfter(renames, r)
  }

  /** Two renamings that agree on unmarked names agree on a schematic without marks. */
  lemma MapDocAgree(doc: seq<Line>, f: Ref -> Ref, g: Ref -> Ref)
    requires Unmarked(doc)
    requires forall x :: f(Ref(x, false)) == g(Ref(x, false))
    ensures MapDoc(doc, f) == MapDoc(doc, g)
  {
    forall i | 0 <= i < |doc| ensures MapLine(doc[i], f) == MapLine(doc[i], g) {
      if doc[i].Plain? {
        var ps := doc[i].pieces;
        assert PiecesUnmarked(ps);
        assert MapPieces(ps, f) == MapPieces(ps, g);
      }
    }
  }

  lemma MapDocId(doc: seq<Line>)
    ensures MapDoc(doc, r => r) == doc
  {
    forall i | 0 <= i < |doc| ensures MapLine(doc[i], r => r) == doc[i] {
      if doc[i].Plain? {
        var ps := doc[i].pieces;
        assert MapPieces(ps, r => r) == ps;
      }
    }
  }

  /** A renaming that keeps names well formed keeps the schematic well formed. */
  lemma MapDocOk(doc: seq<Line>, f: Ref -> Ref)
    requires DocOk(doc)
    requires forall r: Ref :: IsDesignator(r.name) ==> IsDesignator(f(r).name)
    requires forall r: Ref :: NameOk(r.name) ==> NameOk(f(r).name)
    ensures DocOk(MapDoc(doc, f))
  {
    var out := MapDoc(doc, f);
    forall i | 0 <= i < |doc| ensures LineOk(out[i]) {
      assert LineOk(doc[i]);
      if doc[i].Plain? {
        var ps := doc[i].pieces;
        var qs := MapPieces(ps, f);
        forall k | 0 <= k < |qs| ensures PieceOk(qs[k]) {
          assert PieceOk(ps[k]);
        }
      }
    }
  }

  // ---------------------------------------------------------------------------
  // The two patterns on a well-formed line

  lemma DeclBlanks(c: string, r: Ref)
    requires CompOk(c) && IsDesignator(r.name)
    ensures var s := LineText(Decl(c, r));
            s[0] == 'L' && s[1] == ' ' && s[2 + |c|] == ' '
            && s[3 + |c|..] == RefText(r)
            && forall j :: 2 <= j < |s| && j != 2 + |c| ==> !IsBlank(s[j])
  {
    var s := LineText(Decl(c, r));
    assert s == "L " + c + " " + RefText(r);
    forall j | 2 <= j < |s| && j != 2 + |c| ensures !IsBlank(s[j]) {
      if j < 2 + |c| {
        assert s[j] == c[j - 2];
      } else {
        assert s[j] == RefText(r)[j - 3 - |c|];
      }
    }
  }

  /** A text without blanks that is all blanks is empty. */
  lemma NoBlankSuffix(t: string)
    requires forall i :: 0 <= i < |t| ==> !IsBlank(t[i])
    ensures AllBlank(t) ==> t == []
  {
    if t != [] {
      assert !IsBlank(t[0]);
    }
  }

  /** A declaration line matches the pattern for `oldRef` exactly when it declares the unmarked `oldRef`. */
  lemma DeclLineOfDecl(c: string, r: Ref, oldRef: string)
    requires CompOk(c) && IsDesignator(r.name) && IsDesignator(oldRef)
    ensures DeclLine(LineText(Decl(c, r)), oldRef) <==> r == Ref(oldRef, false)
  {
    if r == Ref(oldRef, false) {
      UnmarkedDeclMatches(c, oldRef);
    } else if DeclLine(LineText(Decl(c, r)), oldRef) {
      OnlyUnmarkedDeclMatches(c, r, oldRef);
    }
  }

  /** The declaration of the unmarked `oldRef` matches the pattern. */
  lemma UnmarkedDeclMatches(c: string, oldRef: string)
    requires CompOk(c) && IsDesignator(oldRef)
    ensures DeclLine(LineText(Decl(c, Ref(oldRef, false))), oldRef)
  {
    var s := LineText(Decl(c, Ref(oldRef, false)));
    DeclBlanks(c, Ref(oldRef, false));
    var k0 := 3 + |c|;
    assert s[k0..] == oldRef;
    assert s[k0..k0 + |oldRef|] == oldRef && s[k0 + |oldRef|..] == [];
    assert DeclAt(s, oldRef, k0);
  }

  /** Only the declaration of the unmarked `oldRef` matches the pattern. */
  lemma OnlyUnmarkedDeclMatches(c: string, r: Ref, oldRef: string)
    requires CompOk(c) && IsDesignator(r.name) && IsDesignator(oldRef)
    requires DeclLine(LineText(Decl(c, r)), oldRef)
    ensures r == Ref(oldRef, false)
  {
    var s := LineText(Decl(c, r));
    DeclBlanks(c, r);
    var k0 := 3 + |c|;
    var k :| 3 <= k <= |s| && DeclAt(s, oldRef, k);
    assert k == k0;
    var t := s[k + |oldRef|..];
    forall i | 0 <= i < |t| ensures !IsBlank(t[i]) {
      assert t[i] == s[k + |oldRef| + i];
    }
    NoBlankSuffix(t);
    assert RefText(r) == oldRef;
    assert RefText(r)[0] == oldRef[0];
  }

  /** A line that is not a declaration never matches the declaration pattern. */
  lemma PlainNoDecl(ps: seq<Piece>, oldRef: string)
    requires LineOk(Plain(ps))
    ensures !DeclLine(PiecesText(ps), oldRef)
  {
    if ps != [] {
      var s := PiecesText(ps);
      assert s == PieceText(ps[0]) + PiecesText(ps[1..]);
      if ps[0].Quoted? {
        assert s[0] == '"';
      } else if |ps[0].text| >= 1 && ps[0].text[0] != 'L' {
        assert s[0] == ps[0].text[0];
      } else {
        assert s[1] == ps[0].text[1];
      }
    }
  }

  /** No stretch of a well-formed text starts with `oldRef` followed by a quote. */
  lemma NoClosingMatch(ps: seq<Piece>, oldRef: string)
    requires forall i :: 0 <= i < |ps| ==> PieceOk(ps[i])
    requires IsDesignator(oldRef)
    ensures !StartsWith(PiecesText(ps), oldRef + "\"")
  {
    if ps != [] {
      var s := PiecesText(ps);
      var q := oldRef + "\"";
      assert PieceOk(ps[0]);
      assert s == PieceText(ps[0]) + PiecesText(ps[1..]);
      if ps[0].Quoted? {
        assert s[0] == '"' && q[0] == oldRef[0];
        assert IsDesignatorChar(oldRef[0]);
        DiffersAt(s, q, 0);
      } else {
        var t := ps[0].text;
        var j :| 0 <= j < |t| && !IsDesignatorChar(t[j]);
        if j < |oldRef| {
          assert s[j] == t[j] && q[j] == oldRef[j];
          assert IsDesignatorChar(oldRef[j]);
          DiffersAt(s, q, j);
        } else {
          assert s[|oldRef|] == t[|oldRef|] && q[|oldRef|] == '"';
          assert TextChar(t[|oldRef|]);
          DiffersAt(s, q, |oldRef|);
        }
      }
    }
  }

  lemma DiffersAt(s: string, q: string, k: nat)
    requires k < |q| && k < |s| && s[k] != q[k]
    ensures !StartsWith(s, q)
  {
    if |q| <= |s| {
      assert s[..|q|][k] == s[k];
    }
  }

  lemma StartsWithCons(c: char, rest: string, x: string)
    ensures StartsWith([c] + rest, [c] + x) <==> StartsWith(rest, x)
  {
    if |x| <= |rest| {
      assert ([c] + rest)[..|x| + 1] == [c] + rest[..|x|];
      assert ([c] + rest[..|x|])[1..] == rest[..|x|];
      assert ([c] + x)[1..] == x;
    }
  }

  /** The quoted text of any name other than the unmarked `oldRef` does not start like `"oldRef"`. */
  lemma QuotedMismatch(r: Ref, oldRef: string, rest: string)
    requires NameOk(r.name) && IsDesignator(oldRef) && r != Ref(oldRef, false)
    ensures !StartsWith("\"" + RefText(r) + "\"" + rest, QuotedOld(oldRef))
  {
    var s := "\"" + RefText(r) + "\"" + rest;
    var p := QuotedOld(oldRef);
    var body := RefText(r);
    if |body| < |oldRef| {
      assert s[1 + |body|] == '"' && p[1 + |body|] == oldRef[|body|];
    } else if |body| > |oldRef| {
      assert s[1 + |oldRef|] == body[|oldRef|] && p[1 + |oldRef|] == '"';
    } else if r.marked {
      assert s[1] == Marker && p[1] == oldRef[0];
    } else {
      assert body != oldRef;
      var j :| 0 <= j < |oldRef| && body[j] != oldRef[j];
      assert s[1 + j] == body[j] && p[1 + j] == oldRef[j];
    }
  }

  /** What the quoted replacement does to one piece followed by a well-formed rest. */
  lemma PieceReplace(x: Piece, rest: string, rn: Rename)
    requires PieceOk(x) && IsDesignator(rn.oldRef) && rn.oldRef != rn.newRef
    requires !StartsWith(rest, rn.oldRef + "\"")
    ensures Replace(PieceText(x) + rest, QuotedOld(rn.oldRef), QuotedNew(rn.newRef))
         == PieceText(if x.Raw? then x else Quoted(StepRef(x.ref, rn)))
            + Replace(rest, QuotedOld(rn.oldRef), QuotedNew(rn.newRef))
  {
    var p, q := QuotedOld(rn.oldRef), QuotedNew(rn.newRef);
    match x
    case Raw(t) =>
      ReplaceClearHead(t, rest, p, q);
    case Quoted(r) =>
      if r == Ref(rn.oldRef, false) {
        assert PieceText(x) == p;
        ReplaceAtHead(p, rest, q);
      } else {
        QuotedSkip(r, rest, rn);
      }
  }

  /** A quoted name other than the unmarked `oldRef` is kept, quotes and all. */
  lemma QuotedSkip(r: Ref, rest: string, rn: Rename)
    requires NameOk(r.name) && IsDesignator(rn.oldRef) && r != Ref(rn.oldRef, false)
    requires !StartsWith(rest, rn.oldRef + "\"")
    ensures Replace("\"" + RefText(r) + "\"" + rest, QuotedOld(rn.oldRef), QuotedNew(rn.newRef))
         == "\"" + RefText(r) + "\"" + Replace(rest, QuotedOld(rn.oldRef), QuotedNew(rn.newRef))
  {
    QuotedMismatch(r, rn.oldRef, rest);
    RefTextNoQuote(r);
    ClosingQuoteSkip(rest, rn);
    KeepEnclosed('"', RefText(r), rest, QuotedOld(rn.oldRef), QuotedNew(rn.newRef));
  }

  /** Text enclosed in the pattern's first character, where no occurrence starts, is kept. */
  lemma KeepEnclosed(c: char, body: string, rest: string, p: string, q: string)
    requires p != [] && p[0] == c && c !in body
    requires !StartsWith([c] + body + [c] + rest, p)
    requires Replace([c] + rest, p, q) == [c] + Replace(rest, p, q)
    ensures Replace([c] + body + [c] + rest, p, q) == [c] + body + [c] + Replace(rest, p, q)
  {
    Enclosed(c, body, rest);
    Enclosed(c, body, Replace(rest, p, q));
    ReplaceSkip(c, body + ([c] + rest), p, q);
    ReplaceClearHead(body, [c] + rest, p, q);
  }

  lemma Enclosed(c: char, body: string, rest: string)
    ensures [c] + body + [c] + rest == [c] + (body + ([c] + rest))
  {
  }

  /** A well-formed name holds no quote. */
  lemma RefTextNoQuote(r: Ref)
    requires NameOk(r.name)
    ensures '"' !in RefText(r)
  {
    forall j | 0 <= j < |r.name| ensures r.name[j] != '"' {
      assert TextChar(r.name[j]);
    }
  }

  /** A closing quote not followed by `oldRef` and a quote is kept. */
  lemma ClosingQuoteSkip(rest: string, rn: Rename)
    requires !StartsWith(rest, rn.oldRef + "\"")
    ensures Replace(['"'] + rest, QuotedOld(rn.oldRef), QuotedNew(rn.newRef))
         == ['"'] + Replace(rest, QuotedOld(rn.oldRef), QuotedNew(rn.newRef))
  {
    var p := QuotedOld(rn.oldRef);
    StartsWithCons('"', rest, rn.oldRef + "\"");
    assert p == ['"'] + (rn.oldRef + "\"");
    ReplaceSkip('"', rest, p, QuotedNew(rn.newRef));
  }

  /** A quoted name is followed by its closing quote; only the exact unmarked `oldRef` is replaced there. */
  lemma {:induction false} QuotedReplace(ps: seq<Piece>, rn: Rename)
    requires forall i :: 0 <= i < |ps| ==> PieceOk(ps[i])
    requires IsDesignator(rn.oldRef) && rn.oldRef != rn.newRef
    ensures Replace(PiecesText(ps), QuotedOld(rn.oldRef), QuotedNew(rn.newRef))
         == PiecesText(MapPieces(ps, StepFn(rn)))
    decreases |ps|
  {
    if ps != [] {
      var f := StepFn(rn);
      var out := MapPieces(ps, f);
      assert out[1..] == MapPieces(ps[1..], f);
      QuotedReplace(ps[1..], rn);
      NoClosingMatch(ps[1..], rn.oldRef);
      PieceReplace(ps[0], PiecesText(ps[1..]), rn);
    }
  }

  // ---------------------------------------------------------------------------
  // One rename on a well-formed schematic

  /** A well-formed line has no newline, and stripping its markers unmarks its names. */
  lemma {:induction false} PiecesClean(ps: seq<Piece>)
    requires forall i :: 0 <= i < |ps| ==> PieceOk(ps[i])
    ensures '\n' !in PiecesText(ps)
    ensures DropMarkers(PiecesText(ps)) == PiecesText(MapPieces(ps, Unmark))
    decreases |ps|
  {
    if ps != [] {
      var head, rest := PieceText(ps[0]), PiecesText(ps[1..]);
      var m := MapPieces(ps, Unmark);
      PiecesClean(ps[1..]);
      PieceClean(ps[0]);
      assert m[1..] == MapPieces(ps[1..], Unmark);
      assert PiecesText(m) == PieceText(m[0]) + PiecesText(m[1..]);
      DropMarkersAppend(head, rest);
    }
  }

  /** One piece of a well-formed line: no newline, and stripping its markers unmarks its name. */
  lemma PieceClean(x: Piece)
    requires PieceOk(x)
    ensures '\n' !in PieceText(x)
    ensures DropMarkers(PieceText(x)) == PieceText(if x.Raw? then x else Quoted(Unmark(x.ref)))
  {
    match x
    case Raw(t) =>
      DropMarkersClean(t);
    case Quoted(r) =>
      var q, body := "\"", RefText(r);
      assert PieceText(x) == q + body + q;
      RefTextClean(r);
      DropMarkersAppend(q + body, q);
      DropMarkersAppend(q, body);
      DropMarkersClean(q);
      assert PieceText(Quoted(Unmark(r))) == q + r.name + q;
  }

  /** A well-formed name has no newline, and stripping the marker leaves the bare name. */
  lemma RefTextClean(r: Ref)
    requires NameOk(r.name)
    ensures '\n' !in RefText(r)
    ensures DropMarkers(RefText(r)) == r.name
  {
    var name := r.name;
    assert '\n' !in name by {
      forall j | 0 <= j < |name| ensures name[j] != '\n' {
        assert TextChar(name[j]);
      }
    }
    assert Marker !in name by {
      forall j | 0 <= j < |name| ensures name[j] != Marker {
        assert TextChar(name[j]);
      }
    }
    DropMarkersClean(name);
    if r.marked {
      DropMarkersAppend([Marker], name);
      assert DropMarkers([Marker]) == [];
    }
  }

  lemma DeclClean(c: string, r: Ref)
    requires CompOk(c) && NameOk(r.name)
    ensures '\n' !in LineText(Decl(c, r))
    ensures DropMarkers(LineText(Decl(c, r))) == LineText(Decl(c, Unmark(r)))
  {
    var head := "L " + c + " ";
    assert Marker !in head && '\n' !in head by {
      forall j | 0 <= j < |head| ensures head[j] != Marker && head[j] != '\n' {
        if 2 <= j < 2 + |c| {
          assert head[j] == c[j - 2];
        }
      }
    }
    DropMarkersAppend(head, RefText(r));
    DropMarkersClean(head);
    DropMarkersAppend([Marker], r.name);
    DropMarkersClean(r.name);
    assert '\n' !in RefText(r) by {
      forall j | 0 <= j < |RefText(r)| ensures RefText(r)[j] != '\n' {
        if r.marked && j > 0 {
          assert RefText(r)[j] == r.name[j - 1];
        }
      }
    }
  }

  lemma LineClean(l: Line)
    requires LineOk(l)
    ensures '\n' !in LineText(l)
    ensures DropMarkers(LineText(l)) == LineText(MapLine(l, Unmark))
  {
    match l
    case Decl(c, r) =>
      DeclClean(c, r);
    case Plain(ps) =>
      PiecesClean(ps);
  }

  /** Every line with its markers stripped. */
  function DropEach(lines: seq<string>): (out: seq<string>)
    ensures |out| == |lines|
    ensures forall i :: 0 <= i < |lines| ==> out[i] == DropMarkers(lines[i])
  {
    seq(|lines|, i requires 0 <= i < |lines| => DropMarkers(lines[i]))
  }

  lemma DropEachTail(lines: seq<string>)
    requires lines != []
    ensures DropEach(lines)[1..] == DropEach(lines[1..])
  {
  }

  /** Stripping the markers of newline-joined lines strips them line by line. */
  lemma {:induction false} DropMarkersJoin(lines: seq<string>)
    ensures DropMarkers(Join(lines, "\n")) == Join(DropEach(lines), "\n")
    decreases |lines|
  {
    if |lines| >= 2 {
      var head, rest := lines[0], Join(lines[1..], "\n");
      DropMarkersJoin(lines[1..]);
      DropEachTail(lines);
      assert Join(lines, "\n") == head + "\n" + rest;
      DropMarkersAppend(head + "\n", rest);
      DropMarkersAppend(head, "\n");
      DropMarkersClean("\n");
    }
  }

  /** Stripping the markers from a well-formed schematic unmarks every name. */
  lemma DocClean(doc: seq<Line>)
    requires DocOk(doc)
    ensures DropMarkers(DocText(doc)) == DocText(MapDoc(doc, Unmark))
  {
    var lines := LinesText(doc);
    DropMarkersJoin(lines);
    forall i | 0 <= i < |doc| ensures DropEach(lines)[i] == LinesText(MapDoc(doc, Unmark))[i] {
      LineClean(doc[i]);
    }
    assert DropEach(lines) == LinesText(MapDoc(doc, Unmark));
  }

  lemma DeclNoQuote(c: string, r: Ref)
    requires CompOk(c) && NameOk(r.name)
    ensures '"' !in LineText(Decl(c, r))
  {
    var s := LineText(Decl(c, r));
    assert s == "L " + c + " " + RefText(r);
    forall j | 0 <= j < |s| ensures s[j] != '"' {
      if 2 <= j < 2 + |c| {
        assert s[j] == c[j - 2];
      } else if j > 2 + |c| {
        assert s[j] == RefText(r)[j - 3 - |c|];
      }
    }
  }

  /**
   * One line under one rename: the declaration of the unmarked `oldRef` becomes
   * the marked new name with the symbol `c`, the quoted unmarked `oldRef`
   * becomes the marked new name, and everything else is kept.
   */
  lemma LineStep(l: Line, rn: Rename, c: string)
    requires LineOk(l) && IsDesignator(rn.oldRef) && IsDesignator(rn.newRef) && rn.oldRef != rn.newRef
    requires l.Decl? && l.ref == Ref(rn.oldRef, false) ==> l.compType == c
    ensures Replace(if DeclLine(LineText(l), rn.oldRef) then NewDeclLine(c, rn.newRef) else LineText(l),
                    QuotedOld(rn.oldRef), QuotedNew(rn.newRef))
         == LineText(MapLine(l, StepFn(rn)))
  {
    match l
    case Decl(c2, r) =>
      DeclStep(c2, r, rn, c);
    case Plain(ps) =>
      PlainNoDecl(ps, rn.oldRef);
      QuotedReplace(ps, rn);
  }

  lemma DeclStep(c2: string, r: Ref, rn: Rename, c: string)
    requires CompOk(c2) && IsDesignator(r.name) && IsDesignator(rn.oldRef) && IsDesignator(rn.newRef)
    requires rn.oldRef != rn.newRef && (r == Ref(rn.oldRef, false) ==> c2 == c)
    ensures Replace(if DeclLine(LineText(Decl(c2, r)), rn.oldRef) then NewDeclLine(c, rn.newRef) else LineText(Decl(c2, r)),
                    QuotedOld(rn.oldRef), QuotedNew(rn.newRef))
         == LineText(Decl(c2, StepRef(r, rn)))
  {
    var p, q := QuotedOld(rn.oldRef), QuotedNew(rn.newRef);
    DeclLineOfDecl(c2, r, rn.oldRef);
    var after := StepRef(r, rn);
    if r == Ref(rn.oldRef, false) {
      assert after == Ref(rn.newRef, true);
      assert NewDeclLine(c, rn.newRef) == LineText(Decl(c2, after));
    } else {
      assert after == r;
    }
    DeclNoQuote(c2, after);
    ReplaceAbsentHead(LineText(Decl(c2, after)), p, q);
  }

  /** The matches of a pattern that only one text satisfies, and that some line satisfies. */
  lemma {:induction false} MatchesOf(lines: seq<string>, oldRef: string, t: string)
    requires forall i :: 0 <= i < |lines| && DeclLine(lines[i], oldRef) ==> lines[i] == t
    ensures forall i :: 0 <= i < |MatchingLines(lines, oldRef)| ==> MatchingLines(lines, oldRef)[i] == t
    ensures (exists i :: 0 <= i < |lines| && DeclLine(lines[i], oldRef)) ==> MatchingLines(lines, oldRef) != []
    decreases |lines|
  {
    if lines != [] {
      MatchesOf(lines[1..], oldRef, t);
      if exists i :: 0 <= i < |lines| && DeclLine(lines[i], oldRef) {
        var i :| 0 <= i < |lines| && DeclLine(lines[i], oldRef);
        if i > 0 {
          assert DeclLine(lines[1..][i - 1], oldRef);
        }
      }
    }
  }

  /** The symbol the pass reads from a declaration line is the one it declares. */
  lemma DeclTokens(c: string, oldRef: string)
    requires CompOk(c) && IsDesignator(oldRef)
    ensures |Tokens(LineText(Decl(c, Ref(oldRef, false))))| >= 2
    ensures Tokens(LineText(Decl(c, Ref(oldRef, false))))[1] == c
  {
    assert forall j :: 0 <= j < |c| ==> !IsSpace(c[j]);
    assert forall j :: 0 <= j < |oldRef| ==> !IsSpace(oldRef[j]);
    assert LineText(Decl(c, Ref(oldRef, false))) == "L" + [' '] + (c + [' '] + oldRef);
    ThreeWords("L", c, oldRef);
  }

  lemma ThreeWords(a: string, b: string, w: string)
    requires a != [] && forall j :: 0 <= j < |a| ==> !IsSpace(a[j])
    requires b != [] && forall j :: 0 <= j < |b| ==> !IsSpace(b[j])
    requires w != [] && forall j :: 0 <= j < |w| ==> !IsSpace(w[j])
    ensures Tokens(a + [' '] + (b + [' '] + w)) == [a, b, w]
  {
    TokensWord(w);
    TokensCons(b, ' ', w);
    TokensCons(a, ' ', b + [' '] + w);
  }

  /** The lines of a well-formed schematic are what splitting its text gives back. */
  lemma DocLines(doc: seq<Line>)
    requires DocOk(doc)
    ensures Split(DocText(doc), '\n') == LinesText(doc)
  {
    var lines := LinesText(doc);
    forall j | 0 <= j < |lines| ensures '\n' !in lines[j] {
      LineClean(doc[j]);
    }
    SplitJoin(lines, '\n');
  }

  /** The declarations of the unmarked `oldRef` all read the same, and there is one. */
  lemma DocMatches(doc: seq<Line>, oldRef: string, c: string, i: nat)
    requires DocOk(doc) && IsDesignator(oldRef)
    requires i < |doc| && doc[i] == Decl(c, Ref(oldRef, false))
    requires forall j :: 0 <= j < |doc| && doc[j].Decl? && doc[j].ref == Ref(oldRef, false) ==> doc[j].compType == c
    ensures OneDistinct(DeclMatches(DocText(doc), oldRef))
    ensures DeclMatches(DocText(doc), oldRef)[0] == LineText(Decl(c, Ref(oldRef, false)))
  {
    var lines := LinesText(doc);
    DocLines(doc);
    var t := lines[i];
    forall j | 0 <= j < |lines| && DeclLine(lines[j], oldRef) ensures lines[j] == t {
      match doc[j]
      case Decl(c2, r) => DeclLineOfDecl(c2, r, oldRef);
      case Plain(ps) => PlainNoDecl(ps, oldRef);
    }
    DeclLineOfDecl(c, Ref(oldRef, false), oldRef);
    MatchesOf(lines, oldRef, t);
  }

  /** Rewriting the declarations and then the quoted names renames the unmarked `oldRef` on every line. */
  lemma DocRewrite(doc: seq<Line>, rn: Rename, c: string)
    requires DocOk(doc) && IsDesignator(rn.oldRef) && IsDesignator(rn.newRef) && rn.oldRef != rn.newRef
    requires forall j :: 0 <= j < |doc| && doc[j].Decl? && doc[j].ref == Ref(rn.oldRef, false) ==> doc[j].compType == c
    ensures Replace(RewriteDecls(DocText(doc), rn.oldRef, NewDeclLine(c, rn.newRef)), QuotedOld(rn.oldRef), QuotedNew(rn.newRef))
         == DocText(MapDoc(doc, StepFn(rn)))
  {
    var oldRef := rn.oldRef;
    var lines := LinesText(doc);
    DocLines(doc);
    var nl := NewDeclLine(c, rn.newRef);
    var rewritten := seq(|lines|, j requires 0 <= j < |lines| => if DeclLine(lines[j], oldRef) then nl else lines[j]);
    assert RewriteDecls(DocText(doc), oldRef, nl) == Join(rewritten, "\n");
    ReplaceLines(rewritten, QuotedOld(oldRef), QuotedNew(rn.newRef));
    var after := LinesText(MapDoc(doc, StepFn(rn)));
    var replaced := ReplaceEach(rewritten, QuotedOld(oldRef), QuotedNew(rn.newRef));
    forall j | 0 <= j < |lines| ensures replaced[j] == after[j] {
      LineStep(doc[j], rn, c);
    }
    assert replaced == after;
  }

  /** The new declaration line of a well-formed symbol and name holds no backslash. */
  lemma NewDeclLiteral(c: string, newRef: string)
    requires CompOk(c) && IsDesignator(newRef)
    ensures '\\' !in NewDeclLine(c, newRef)
  {
    assert NewDeclLine(c, newRef) == "L " + c + " " + [Marker] + newRef;
  }

  /**
   * One changing rename on a well-formed schematic that declares the
   * unmarked `oldRef` with one symbol: the pass finds one distinct
   * declaration, writes no dump, and renames the unmarked `oldRef` everywhere.
   */
  lemma DocStep(doc: seq<Line>, rn: Rename, c: string, i: nat, n: nat, dump: Option<string>)
    requires DocOk(doc) && IsDesignator(rn.oldRef) && IsDesignator(rn.newRef) && rn.oldRef != rn.newRef
    requires i < |doc| && doc[i] == Decl(c, Ref(rn.oldRef, false))
    requires forall j :: 0 <= j < |doc| && doc[j].Decl? && doc[j].ref == Ref(rn.oldRef, false) ==> doc[j].compType == c
    ensures Step(Pass(DocText(doc), n, dump, None), rn, false)
         == Pass(DocText(MapDoc(doc, StepFn(rn))), n + 1, dump, None)
  {
    DocMatches(doc, rn.oldRef, c, i);
    DeclTokens(c, rn.oldRef);
    assert LineOk(doc[i]);
    NewDeclLiteral(c, rn.newRef);
    SubstituteLiteral(DocText(doc), rn.oldRef, NewDeclLine(c, rn.newRef));
    DocRewrite(doc, rn, c);
  }

  // ---------------------------------------------------------------------------
  // The whole pass on a well-formed schematic

  /** A name after the renames is the name itself, or a new name written with the marker. */
  lemma {:induction false} RefAfterNames(renames: seq<Rename>, r: Ref)
    requires forall k :: 0 <= k < |renames| ==> IsDesignator(renames[k].newRef)
    ensures RefAfter(renames, r) == r || (RefAfter(renames, r).marked && IsDesignator(RefAfter(renames, r).name))
    decreases |renames|
  {
    if renames != [] {
      RefAfterNames(renames[..|renames| - 1], r);
    }
  }

  /** A name that no rename starts from stays as it is. */
  lemma {:induction false} RefAfterUntouched(renames: seq<Rename>, x: string)
    requires forall k :: 0 <= k < |renames| ==> renames[k].oldRef != x
    ensures RefAfter(renames, Ref(x, false)) == Ref(x, false)
    ensures Lookup(renames, x) == x
    decreases |renames|
  {
    if renames != [] {
      RefAfterUntouched(renames[..|renames| - 1], x);
    }
  }

  /** When no two renames start from the same name, the renames in turn rename each name once, by lookup. */
  lemma {:induction false} RefAfterLookup(renames: seq<Rename>, x: string)
    requires forall k, l :: 0 <= k < l < |renames| ==> renames[k].oldRef != renames[l].oldRef
    ensures RefAfter(renames, Ref(x, false)) == Ref(Lookup(renames, x), Lookup(renames, x) != x)
    decreases |renames|
  {
    if renames != [] {
      var n := |renames| - 1;
      var prefix := renames[..n];
      if renames[n].oldRef == x {
        RefAfterUntouched(prefix, x);
      } else {
        RefAfterLookup(prefix, x);
      }
    }
  }

  /**
   * What the pass needs of a schematic and a list of renames: a well-formed
   * schematic without marks whose designators each have one symbol, renames
   * between designators that start from distinct names, and a declaration
   * for every name that changes.
   */
  predicate Renameable(doc: seq<Line>, renames: seq<Rename>)
  {
    DocOk(doc) && Unmarked(doc) && Uniform(doc)
    && (forall k :: 0 <= k < |renames| ==> IsDesignator(renames[k].oldRef) && IsDesignator(renames[k].newRef))
    && (forall k, l :: 0 <= k < l < |renames| ==> renames[k].oldRef != renames[l].oldRef)
    && (forall k :: 0 <= k < |renames| && renames[k].oldRef != renames[k].newRef ==> Declared(doc, renames[k].oldRef))
  }

  /** The schematic after the renames so far still meets what a changing rename needs. */
  lemma ChangingStep(doc: seq<Line>, renames: seq<Rename>, n: nat)
    requires Renameable(doc, renames) && renames != []
    requires renames[|renames| - 1].oldRef != renames[|renames| - 1].newRef
    ensures Step(Pass(DocText(MapDoc(doc, AfterFn(renames[..|renames| - 1]))), n, None, None), renames[|renames| - 1], false)
         == Pass(DocText(MapDoc(doc, AfterFn(renames))), n + 1, None, None)
  {
    var prefix, rn := renames[..|renames| - 1], renames[|renames| - 1];
    var before := MapDoc(doc, AfterFn(prefix));
    var i :| 0 <= i < |doc| && doc[i].Decl? && doc[i].ref == Ref(rn.oldRef, false);
    var c := doc[i].compType;
    RefAfterUntouched(prefix, rn.oldRef);
    forall r: Ref | true
      ensures (IsDesignator(r.name) ==> IsDesignator(AfterFn(prefix)(r).name))
           && (NameOk(r.name) ==> NameOk(AfterFn(prefix)(r).name))
    {
      RefAfterNames(prefix, r);
    }
    MapDocOk(doc, AfterFn(prefix));
    forall j | 0 <= j < |before| && before[j].Decl? && before[j].ref == Ref(rn.oldRef, false)
      ensures before[j].compType == c
    {
      RefAfterNames(prefix, doc[j].ref);
    }
    DocStep(before, rn, c, i, n, None);
    MapDocCompose(doc, AfterFn(prefix), StepFn(rn), AfterFn(renames));
  }

  lemma {:induction false} PassOnDoc(doc: seq<Line>, renames: seq<Rename>)
    requires Renameable(doc, renames)
    ensures Steps(Pass(DocText(doc), 0, None, None), renames, false)
         == Pass(DocText(MapDoc(doc, AfterFn(renames))), Changing(renames), None, None)
    decreases |renames|
  {
    if renames == [] {
      MapDocAgree(doc, AfterFn(renames), r => r);
      MapDocId(doc);
    } else {
      var n := |renames| - 1;
      var prefix, rn := renames[..n], renames[n];
      assert Renameable(doc, prefix);
      PassOnDoc(doc, prefix);
      if rn.oldRef == rn.newRef {
        MapDocAgree(doc, AfterFn(renames), AfterFn(prefix));
      } else {
        ChangingStep(doc, renames, Changing(prefix));
      }
    }
  }

  /**
   * `remap_schematic` on a well-formed schematic renames every designator at
   * once: the file written back is the schematic with each name replaced by
   * its new name, looked up among the original names, so a swap or a chain
   * of renames comes out as intended; no dump is written, and the counter
   * holds the number of renames that change a name.
   */
  lemma RemapSchematicRenames(doc: seq<Line>, renames: seq<Rename>)
    requires Renameable(doc, renames)
    ensures RemapSchematicSpec(DocText(doc), renames, false)
         == Outcome(Some(DocText(Renamed(doc, renames))), None, Changing(renames), None)
  {
    PassOnDoc(doc, renames);
    var after := MapDoc(doc, AfterFn(renames));
    StripDropsMarkers(DocText(after));
    forall r: Ref | true
      ensures (IsDesignator(r.name) ==> IsDesignator(AfterFn(renames)(r).name))
           && (NameOk(r.name) ==> NameOk(AfterFn(renames)(r).name))
    {
      RefAfterNames(renames, r);
    }
    MapDocOk(doc, AfterFn(renames));
    DocClean(after);
    MapDocCompose(doc, AfterFn(renames), Unmark, r => Unmark(RefAfter(renames, r)));
    forall x | true ensures Unmark(RefAfter(renames, Ref(x, false))) == Ref(Lookup(renames, x), false) {
      RefAfterLookup(renames, x);
    }
    MapDocAgree(doc, r => Unmark(RefAfter(renames, r)), LookupFn(renames));
  }
}
