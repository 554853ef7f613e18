/**
 * Back-annotation of the schematic (`remap_schematic` in both scripts): for
 * every designator pair whose old and new names differ, each declaration
 * line `L <type> <oldRef>` is rewritten and each quoted `"<oldRef>"` becomes the
 * new name, always written behind the private marker so that later pairs
 * cannot match it; the markers are stripped once at the end.
 */
module Schematic {
  import opened Results
  import opened Text
  import opened Template

  /** A rename `old -> new` taken from a record. */
  datatype Rename = Rename(oldRef: string, newRef: string)

  // ---------------------------------------------------------------------------
  // The declaration pattern `^L[ \t]+.*?[ \t]+<oldRef>[ \t]*$` under re.M

  /**
   * `line` is `L`, blanks, anything, blanks, `oldRef`, optional blanks; taking
   * the shortest blank runs, `k` is where `oldRef` starts.
   */
  predicate DeclAt(line: string, oldRef: string, k: int)
  {
    3 <= k && k + |oldRef| <= |line| && IsBlank(line[k - 1])
    && line[k..k + |oldRef|] == oldRef && AllBlank(line[k + |oldRef|..])
  }

  /** One line of the schematic (without its newline) matches the declaration pattern for `oldRef`. */
  predicate DeclLine(line: string, oldRef: string)
  {
    |line| >= 2 && line[0] == 'L' && IsBlank(line[1])
    && exists k :: 3 <= k <= |line| && DeclAt(line, oldRef, k)
  }

  /** The lines of `lines` that match, in order: what `re.findall` returns, since a match is a whole line. */
  function MatchingLines(lines: seq<string>, oldRef: string): (ms: seq<string>)
    ensures |ms| <= |lines|
    ensures forall i :: 0 <= i < |ms| ==> DeclLine(ms[i], oldRef)
    decreases |lines|
  {
    if lines == [] then []
    else (if DeclLine(lines[0], oldRef) then [lines[0]] else []) + MatchingLines(lines[1..], oldRef)
  }

  function DeclMatches(data: string, oldRef: string): seq<string>
  {
    MatchingLines(Split(data, '\n'), oldRef)
  }

  /** `len(list(set(matches))) == 1`. */
  predicate OneDistinct(ms: seq<string>)
  {
    ms != [] && forall i :: 0 <= i < |ms| ==> ms[i] == ms[0]
  }

  /** Every matching line becomes `newLine`, taken literally. */
  function RewriteDecls(data: string, oldRef: string, newLine: string): string
  {
    var lines := Split(data, '\n');
    Join(seq(|lines|, i requires 0 <= i < |lines| =>
                if DeclLine(lines[i], oldRef) then newLine else lines[i]), "\n")
  }

  /**
   * `re.sub(regex, template, data, flags=re.M)`: the template is read first
   * and a bad one fails; a reference to a group other than the whole match
   * fails at the first matching line; otherwise every matching line becomes
   * the template filled in with that line.
   */
  function Substitute(data: string, oldRef: string, template: string): Result<string>
  {
    match Parse(template)
    case Err(f) => Err(f)
    case Ok(ps) =>
      if !WholeMatchOnly(ps) && DeclMatches(data, oldRef) != [] then Err(ReError)
      else
        var lines := Split(data, '\n');
        Ok(Join(seq(|lines|, i requires 0 <= i < |lines| =>
                      if DeclLine(lines[i], oldRef) then Fill(ps, lines[i]) else lines[i]), "\n"))
  }

  /** A template without a backslash replaces every matching line with itself. */
  lemma SubstituteLiteral(data: string, oldRef: string, template: string)
    requires '\\' !in template
    ensures Substitute(data, oldRef, template) == Ok(RewriteDecls(data, oldRef, template))
  {
    LiteralTemplate(template);
    FillChars(template, []);
    var lines := Split(data, '\n');
    var filled := seq(|lines|, i requires 0 <= i < |lines| =>
                        if DeclLine(lines[i], oldRef) then Fill(Chars(template), lines[i]) else lines[i]);
    var literal := seq(|lines|, i requires 0 <= i < |lines| =>
                         if DeclLine(lines[i], oldRef) then template else lines[i]);
    forall i | 0 <= i < |lines| ensures filled[i] == literal[i] {
      FillChars(template, lines[i]);
    }
    assert filled == literal;
  }

  /** `"L %s \x01%s" % (comp_type, new_refdes)`. */
  function NewDeclLine(compType: string, newRef: string): string
  {
    "L " + compType + " " + [Marker] + newRef
  }

  function QuotedOld(oldRef: string): string { "\"" + oldRef + "\"" }

  function QuotedNew(newRef: string): string { "\"" + [Marker] + newRef + "\"" }

  // ---------------------------------------------------------------------------
  // The pass over the renames

  /**
   * The state of `remap_schematic` between renames: the buffer, the
   * `comp_renames` counter, the last `.dump` written, and the exception
   * that ended the pass, if one did.
   */
  datatype Pass = Pass(data: string, renames: nat, dump: Option<string>, failure: Option<Failure>)

  /** One iteration of the loop over the records. */
  function Step(st: Pass, r: Rename, dryRun: bool): Pass
  {
    if st.failure.Some? || r.oldRef == r.newRef then st
    else
      var ms := DeclMatches(st.data, r.oldRef);
      var dump := if OneDistinct(ms) then st.dump else Some(st.data);
      var renames := st.renames + 1;
      if ms == [] then Pass(st.data, renames, dump, Some(IndexError))
      else
        var tokens := Tokens(ms[0]);
        if |tokens| < 2 then Pass(st.data, renames, dump, Some(IndexError))
        else
          if dryRun then Pass(st.data, renames, dump, None)
          else match Substitute(st.data, r.oldRef, NewDeclLine(tokens[1], r.newRef))
            case Err(f) => Pass(st.data, renames, dump, Some(f))
            case Ok(decls) => Pass(Replace(decls, QuotedOld(r.oldRef), QuotedNew(r.newRef)), renames, dump, None)
  }

  /** The loop over the records, one rename after another. */
  function Steps(st: Pass, renames: seq<Rename>, dryRun: bool): Pass
    decreases |renames|
  {
    if renames == [] then st
    else Step(Steps(st, renames[..|renames| - 1], dryRun), renames[|renames| - 1], dryRun)
  }

  /** What one call leaves behind: the text written back to the schematic file, the last dump, the counter and the exception. */
  datatype Outcome = Outcome(written: Option<string>, dump: Option<string>, renames: nat, failure: Option<Failure>)

  function RemapSchematicSpec(text: string, renames: seq<Rename>, dryRun: bool): Outcome
  {
    var st := Steps(Pass(text, 0, None, None), renames, dryRun);
    var written := if st.failure.None? && !dryRun then Some(Strip(st.data)) else None;
    Outcome(written, st.dump, st.renames, st.failure)
  }

  lemma {:induction false} FailureStays(st: Pass, renames: seq<Rename>, dryRun: bool)
    requires st.failure.Some?
    ensures Steps(st, renames, dryRun) == st
    decreases |renames|
  {
    if renames != [] {
      FailureStays(st, renames[..|renames| - 1], dryRun);
    }
  }

  lemma {:induction false} FailureStaysAfter(st: Pass, renames: seq<Rename>, n: nat, dryRun: bool)
    requires n <= |renames| && Steps(st, renames[..n], dryRun).failure.Some?
    ensures Steps(st, renames, dryRun) == Steps(st, renames[..n], dryRun)
    decreases |renames| - n
  {
    if n < |renames| {
      assert renames[..n + 1][..n] == renames[..n];
      FailureStaysAfter(st, renames, n + 1, dryRun);
    } else {
      assert renames[..n] == renames;
    }
  }

  lemma StepsSnoc(st: Pass, renames: seq<Rename>, i: nat, dryRun: bool)
    requires i < |renames|
    ensures Steps(st, renames[..i + 1], dryRun) == Step(Steps(st, renames[..i], dryRun), renames[i], dryRun)
  {
    assert renames[..i + 1][..i] == renames[..i];
  }

  /** `remap_schematic(schematic_file, records, dry_run)` on the file's text. */
  method RemapSchematic(text: string, renames: seq<Rename>, dryRun: bool) returns (o: Outcome)
    ensures o == RemapSchematicSpec(text, renames, dryRun)
  {
    var compRenames := 0;
    var data := text;
    var dump: Option<string> := None;
    var i := 0;
    while i < |renames|
      invariant 0 <= i <= |renames|
      invariant Steps(Pass(text, 0, None, None), renames[..i], dryRun) == Pass(data, compRenames, dump, None)
    {
      StepsSnoc(Pass(text, 0, None, None), renames, i, dryRun);
      var next := RenameStep(Pass(data, compRenames, dump, None), renames[i], dryRun);
      if next.failure.Some? {
        FailureStaysAfter(Pass(text, 0, None, None), renames, i + 1, dryRun);
        return Outcome(None, next.dump, next.renames, next.failure);
      }
      data, compRenames, dump := next.data, next.renames, next.dump;
      i := i + 1;
    }
    assert renames[..i] == renames;
    if !dryRun {
      data := Strip(data);
      o := Outcome(Some(data), dump, compRenames, None);
    } else {
      o := Outcome(None, dump, compRenames, None);
    }
  }

  /** The body of the loop over the records: one rename of the buffer, or the exception that ends the pass. */
  method RenameStep(st: Pass, r: Rename, dryRun: bool) returns (next: Pass)
    requires st.failure.None?
    ensures next == Step(st, r, dryRun)
  {
    next := st;
    if r.oldRef != r.newRef {
      next := next.(renames := next.renames + 1);
      var matches := DeclMatches(st.data, r.oldRef);
      if !OneDistinct(matches) {
        next := next.(dump := Some(st.data));
      }
      if matches == [] {
        return next.(failure := Some(IndexError));
      }
      var tokens := Tokens(matches[0]);
      if |tokens| < 2 {
        return next.(failure := Some(IndexError));
      }
      var newLine := NewDeclLine(tokens[1], r.newRef);
      if !dryRun {
        var decls := Substitute(next.data, r.oldRef, newLine);
        if decls.Err? {
          return next.(failure := Some(decls.failure));
        }
        next := next.(data := decls.value);
      }
      if !dryRun {
        next := next.(data := Replace(next.data, QuotedOld(r.oldRef), QuotedNew(r.newRef)));
      }
    }
  }

  // ---------------------------------------------------------------------------
  // Properties of the pass

  /** The number of renames that change a name. */
  function Changing(renames: seq<Rename>): nat
    decreases |renames|
  {
    if renames == [] then 0
    else Changing(renames[..|renames| - 1]) + (if renames[|renames| - 1].oldRef != renames[|renames| - 1].newRef then 1 else 0)
  }

  /**
   * A pass that does not fail counts exactly the renames that change a
   * name, and in dry-run it never touches the buffer.
   */
  lemma {:induction false} StepsCount(text: string, renames: seq<Rename>, dryRun: bool)
    requires Steps(Pass(text, 0, None, None), renames, dryRun).failure.None?
    ensures Steps(Pass(text, 0, None, None), renames, dryRun).renames == Changing(renames)
    ensures dryRun ==> Steps(Pass(text, 0, None, None), renames, dryRun).data == text
    ensures dryRun ==> Steps(Pass(text, 0, None, None), renames, dryRun).dump in {None, Some(text)}
    decreases |renames|
  {
    if renames != [] {
      var n := |renames| - 1;
      StepsCount(text, renames[..n], dryRun);
    }
  }

  /**
   * The file written back holds no marker, dry-run writes nothing, and a
   * successful pass counts the renames that change a name.
   */
  lemma RemapSchematicOutcome(text: string, renames: seq<Rename>, dryRun: bool)
    ensures var o := RemapSchematicSpec(text, renames, dryRun);
            (o.written.Some? ==> Marker !in o.written.value)
            && (dryRun ==> o.written == None && o.dump in {None, Some(text)})
            && (o.failure.None? ==> o.renames == Changing(renames))
  {
    var st := Steps(Pass(text, 0, None, None), renames, dryRun);
    StripDropsMarkers(st.data);
    if st.failure.None? {
      StepsCount(text, renames, dryRun);
    } else if dryRun {
      DryRunDump(text, renames);
    }
  }

  /** In dry-run every dump holds the untouched text, whether the pass fails or not. */
  lemma {:induction false} DryRunDump(text: string, renames: seq<Rename>)
    ensures Steps(Pass(text, 0, None, None), renames, true).data == text
    ensures Steps(Pass(text, 0, None, None), renames, true).dump in {None, Some(text)}
    decreases |renames|
  {
    if renames != [] {
      DryRunDump(text, renames[..|renames| - 1]);
    }
  }

  /**
   * The check on the number of distinct matches only writes the dump: with
   * no match the pass fails at `matches[0]`; with several different matches
   * it dumps the current buffer and goes on, rewriting every matching line
   * with the type taken from the first one. The new declaration line is a
   * `re.sub` template: an error in it ends the pass with the buffer as it
   * was, and a type and name without a backslash are written as they are.
   */
  lemma StepMatches(st: Pass, r: Rename)
    requires st.failure.None? && r.oldRef != r.newRef
    ensures var ms := DeclMatches(st.data, r.oldRef);
            var next := Step(st, r, false);
            (!OneDistinct(ms) ==> next.dump == Some(st.data))
            && (OneDistinct(ms) ==> next.dump == st.dump)
            && (ms == [] ==> next.failure == Some(IndexError) && next.data == st.data)
            && (ms != [] && |Tokens(ms[0])| < 2 ==> next.failure == Some(IndexError) && next.data == st.data)
            && (ms != [] && |Tokens(ms[0])| >= 2 ==>
                  var sub := Substitute(st.data, r.oldRef, NewDeclLine(Tokens(ms[0])[1], r.newRef));
                  (sub.Err? ==> next.failure == Some(sub.failure) && next.data == st.data)
                  && (sub.Ok? ==> next.failure.None?
                                  && next.data == Replace(sub.value, QuotedOld(r.oldRef), QuotedNew(r.newRef)))
                  && ('\\' !in Tokens(ms[0])[1] && '\\' !in r.newRef ==>
                        next.failure.None?
                        && next.data == Replace(RewriteDecls(st.data, r.oldRef, NewDeclLine(Tokens(ms[0])[1], r.newRef)),
                                                QuotedOld(r.oldRef), QuotedNew(r.newRef))))
  {
    var ms := DeclMatches(st.data, r.oldRef);
    if ms != [] && |Tokens(ms[0])| >= 2 && '\\' !in Tokens(ms[0])[1] && '\\' !in r.newRef {
      var t := NewDeclLine(Tokens(ms[0])[1], r.newRef);
      assert '\\' !in t;
      SubstituteLiteral(st.data, r.oldRef, t);
    }
  }
}
