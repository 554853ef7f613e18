/**
 * What the net half of `remap_pcb` does to a board file: the file is read as
 * ordinary text interleaved with auto-generated net names
 * `Net-(<designator>-<pad>)`. On such a text the pass renames the nets of
 * every designator at once, skipping nothing that belongs to it and touching
 * nothing that does not, and the final strip leaves the new names.
 */
module PcbDocument {
  import opened Results
  import opened Text
  import opened Schematic
  import opened SchematicDocument
  import opened Pcb

  /** A stretch of ordinary text, or an auto-generated net name. */
  datatype Chunk = Plain(text: string) | Net(ref: Ref, pad: string)

  function NetText(r: Ref, pad: string): string
  {
    "Net-(" + RefText(r) + "-" + pad + ")"
  }

  function ChunkText(c: Chunk): string
  {
    match c
    case Plain(t) => t
    case Net(r, pad) => NetText(r, pad)
  }

  function BoardText(cs: seq<Chunk>): string
    decreases |cs|
  {
    if cs == [] then [] else ChunkText(cs[0]) + BoardText(cs[1..])
  }

  // ---------------------------------------------------------------------------
  // Well-formed board files

  /** `Net-(` does not occur in `t`. */
  predicate NoNetOpen(t: string)
  {
    forall j :: 0 <= j < |t| ==> !StartsWith(t[j..], "Net-(")
  }

  /** A pad name: no parenthesis, newline or marker. */
  predicate PadOk(pad: string)
  {
    forall j :: 0 <= j < |pad| ==> pad[j] != '(' && pad[j] != ')' && pad[j] != '\n' && pad[j] != Marker
  }

  predicate ChunkOk(c: Chunk)
  {
    match c
    case Plain(t) => Marker !in t && NoNetOpen(t)
    case Net(r, pad) => IsDesignator(r.name) && PadOk(pad)
  }

  /** Every chunk is well formed and two stretches of text are never adjacent (they would be one). */
  predicate BoardOk(cs: seq<Chunk>)
  {
    (forall i :: 0 <= i < |cs| ==> ChunkOk(cs[i]))
    && forall i :: 0 <= i < |cs| - 1 ==> !(cs[i].Plain? && cs[i + 1].Plain?)
  }

  predicate BoardUnmarked(cs: seq<Chunk>)
  {
    forall i :: 0 <= i < |cs| ==> cs[i].Net? ==> !cs[i].ref.marked
  }

  // ---------------------------------------------------------------------------
  // Renaming the nets of a board file

  function MapChunks(cs: seq<Chunk>, f: Ref -> Ref): (out: seq<Chunk>)
    ensures |out| == |cs|
    ensures forall i :: 0 <= i < |cs| ==> out[i] == (if cs[i].Plain? then cs[i] else Net(f(cs[i].ref), cs[i].pad))
  {
    seq(|cs|, i requires 0 <= i < |cs| => if cs[i].Plain? then cs[i] else Net(f(cs[i].ref), cs[i].pad))
  }

  lemma MapChunksCompose(cs: seq<Chunk>, f: Ref -> Ref, g: Ref -> Ref, h: Ref -> Ref)
    requires forall r :: h(r) == g(f(r))
    ensures MapChunks(MapChunks(cs, f), g) == MapChunks(cs, h)
  {
  }

  lemma MapChunksAgree(cs: seq<Chunk>, f: Ref -> Ref, g: Ref -> Ref)
    requires BoardUnmarked(cs)
    requires forall x :: f(Ref(x, false)) == g(Ref(x, false))
    ensures MapChunks(cs, f) == MapChunks(cs, g)
  {
    forall i | 0 <= i < |cs| && cs[i].Net? ensures f(cs[i].ref) == g(cs[i].ref) {
      assert cs[i].ref == Ref(cs[i].ref.name, false);
    }
  }

  lemma MapChunksOk(cs: seq<Chunk>, f: Ref -> Ref)
    requires BoardOk(cs)
    requires forall r: Ref :: IsDesignator(r.name) ==> IsDesignator(f(r).name)
    ensures BoardOk(MapChunks(cs, f))
  {
    var out := MapChunks(cs, f);
    forall i | 0 <= i < |cs| ensures ChunkOk(out[i]) {
      assert ChunkOk(cs[i]);
    }
  }

  /** One rename on the nets: the unmarked `oldRef` becomes the marked new name, whether or not it changes. */
  function MarkRef(rn: Rename): Ref -> Ref
  {
    (r: Ref) => if !r.marked && r.name == rn.oldRef then Ref(rn.newRef, true) else r
  }

  /** A name after one record of the net loop. */
  function NetStepRef(r: Ref, rn: Rename, skipUnchanged: bool): Ref
  {
    if Processed(rn.oldRef, rn.newRef, skipUnchanged) then MarkRef(rn)(r) else r
  }

  /** A name after the records so far. */
  function NetRefAfter(rs: seq<Rename>, skipUnchanged: bool, r: Ref): Ref
    decreases |rs|
  {
    if rs == [] then r
    else NetStepRef(NetRefAfter(rs[..|rs| - 1], skipUnchanged, r), rs[|rs| - 1], skipUnchanged)
  }

  function NetStepFn(rn: Rename, skipUnchanged: bool): Ref -> Ref
  {
    r => NetStepRef(r, rn, skipUnchanged)
  }

  function NetAfterFn(rs: seq<Rename>, skipUnchanged: bool): Ref -> Ref
  {
    r => NetRefAfter(rs, skipUnchanged, r)
  }

  // ---------------------------------------------------------------------------
  // Where a net name can start

  lemma NetPrefixOpen(x: string, oldRef: string)
    ensures StartsWith(x, NetPrefix(oldRef)) ==> StartsWith(x, "Net-(")
  {
    if StartsWith(x, NetPrefix(oldRef)) {
      assert NetPrefix(oldRef)[..5] == "Net-(";
      assert x[..5] == x[..|NetPrefix(oldRef)|][..5];
    }
  }

  lemma NetTextOpen(r: Ref, pad: string)
    ensures StartsWith(NetText(r, pad), NetPrefix(r.name)) || r.marked
    ensures StartsWith(NetText(r, pad), "Net-(")
    ensures NetText(r, pad)[0] == 'N'
  {
    var s := NetText(r, pad);
    assert s[..5] == "Net-(";
    if !r.marked {
      assert s[..|NetPrefix(r.name)|] == NetPrefix(r.name);
    }
  }

  /** In a net name the only `(` is the fifth character and the only `)` the last. */
  lemma NetShape(r: Ref, pad: string)
    requires IsDesignator(r.name) && PadOk(pad)
    ensures var s := NetText(r, pad);
            s[4] == '(' && s[|s| - 1] == ')'
            && (forall j :: 0 <= j < |s| && j != 4 ==> s[j] != '(')
            && (forall j :: 0 <= j < |s| - 1 ==> s[j] != ')' && s[j] != '\n')
  {
    var body := RefText(r);
    forall j | 0 <= j < |body| ensures body[j] != '(' && body[j] != ')' && body[j] != '\n' {
      if r.marked && j > 0 {
        assert body[j] == r.name[j - 1];
        assert IsDesignatorChar(r.name[j - 1]);
      } else if !r.marked {
        assert IsDesignatorChar(r.name[j]);
      }
    }
    NetTextShape(body, pad);
  }

  /** `Net-(<body>-<pad>)` where neither part holds a parenthesis or a line break. */
  lemma NetTextShape(body: string, pad: string)
    requires forall j :: 0 <= j < |body| ==> body[j] != '(' && body[j] != ')' && body[j] != '\n'
    requires PadOk(pad)
    ensures var s := "Net-(" + body + "-" + pad + ")";
            s[4] == '(' && s[|s| - 1] == ')'
            && (forall j :: 0 <= j < |s| && j != 4 ==> s[j] != '(')
            && (forall j :: 0 <= j < |s| - 1 ==> s[j] != ')' && s[j] != '\n')
  {
    var s := "Net-(" + body + "-" + pad + ")";
    forall j | 5 <= j < 5 + |body| ensures s[j] == body[j - 5] {
    }
    forall j | 6 + |body| <= j < |s| - 1 ensures s[j] == pad[j - 6 - |body|] {
    }
  }

  /** Past its first character, a net name followed by anything holds no `Net-(`. */
  lemma NetInnerQuiet(r: Ref, pad: string, rest: string, j: nat)
    requires IsDesignator(r.name) && PadOk(pad)
    requires 0 < j < |NetText(r, pad)|
    ensures !StartsWith((NetText(r, pad) + rest)[j..], "Net-(")
  {
    var u := NetText(r, pad);
    var s := u + rest;
    NetShape(r, pad);
    if j + 4 < |u| {
      assert s[j..][4] == u[j + 4];
    } else {
      var m := |u| - 1 - j;
      assert s[j..][m] == ')';
      assert "Net-("[m] != ')';
    }
  }

  /** A stretch of text followed by nothing or by a net name holds no `Net-(`. */
  lemma PlainQuiet(t: string, rest: string, j: nat)
    requires NoNetOpen(t) && (rest == [] || rest[0] == 'N')
    requires j < |t|
    ensures !StartsWith((t + rest)[j..], "Net-(")
  {
    var s := t + rest;
    if j + 5 <= |t| {
      assert !StartsWith(t[j..], "Net-(");
      assert s[j..][..5] == t[j..][..5];
    } else if rest != [] {
      var m := |t| - j;
      assert s[j..][m] == 'N';
      assert "Net-("[m] != 'N';
    }
  }

  lemma BoardTextHead(cs: seq<Chunk>)
    requires cs != [] && cs[0].Net?
    ensures BoardText(cs) != [] && BoardText(cs)[0] == 'N'
  {
    NetTextOpen(cs[0].ref, cs[0].pad);
  }

  /** What follows a chunk of a well-formed board is nothing or a net name. */
  lemma AfterPlain(cs: seq<Chunk>)
    requires BoardOk(cs) && cs != [] && cs[0].Plain?
    ensures BoardText(cs[1..]) == [] || BoardText(cs[1..])[0] == 'N'
  {
    if |cs| > 1 {
      assert cs[1..][0] == cs[1];
      BoardTextHead(cs[1..]);
    }
  }

  // ---------------------------------------------------------------------------
  // findall on a well-formed board file

  /** The net names of the unmarked `oldRef`, in their order in the file. */
  function Matching(cs: seq<Chunk>, oldRef: string): seq<string>
    decreases |cs|
  {
    if cs == [] then []
    else (if cs[0].Net? && cs[0].ref == Ref(oldRef, false) then [ChunkText(cs[0])] else [])
         + Matching(cs[1..], oldRef)
  }

  lemma {:induction false} FindNetsSkip(u: string, rest: string, oldRef: string)
    requires forall j :: 0 <= j < |u| ==> !StartsWith((u + rest)[j..], "Net-(")
    ensures FindNets(u + rest, oldRef) == FindNets(rest, oldRef)
    decreases |u|
  {
    if u != [] {
      var s := u + rest;
      assert s[0..] == s;
      NetPrefixOpen(s, oldRef);
      assert s[1..] == u[1..] + rest;
      forall j | 0 <= j < |u[1..]| ensures !StartsWith((u[1..] + rest)[j..], "Net-(") {
        assert (u[1..] + rest)[j..] == s[j + 1..];
      }
      FindNetsSkip(u[1..], rest, oldRef);
    } else {
      assert u + rest == rest;
    }
  }

  lemma {:induction false} CloseAtScan(s: string, k: nat, e: nat)
    requires k < e <= |s| && s[e - 1] == ')'
    requires forall j :: k <= j < e - 1 ==> s[j] != ')' && s[j] != '\n'
    ensures CloseAt(s, k) == Some(e)
    decreases e - k
  {
    if k < e - 1 {
      CloseAtScan(s, k + 1, e);
    }
  }

  lemma FindNetsHit(pad: string, rest: string, oldRef: string)
    requires IsDesignator(oldRef) && PadOk(pad)
    ensures FindNets(NetText(Ref(oldRef, false), pad) + rest, oldRef)
         == [NetText(Ref(oldRef, false), pad)] + FindNets(rest, oldRef)
  {
    var u := NetText(Ref(oldRef, false), pad);
    var s := u + rest;
    NetShape(Ref(oldRef, false), pad);
    NetTextOpen(Ref(oldRef, false), pad);
    assert s[..|NetPrefix(oldRef)|] == u[..|NetPrefix(oldRef)|];
    forall j | |NetPrefix(oldRef)| <= j < |u| - 1 ensures s[j] != ')' && s[j] != '\n' {
      assert s[j] == u[j];
    }
    CloseAtScan(s, |NetPrefix(oldRef)|, |u|);
    assert s[..|u|] == u && s[|u|..] == rest;
  }

  lemma BoardOkTail(cs: seq<Chunk>)
    requires BoardOk(cs) && cs != []
    ensures BoardOk(cs[1..]) && ChunkOk(cs[0])
  {
    forall i | 0 <= i < |cs[1..]| ensures ChunkOk(cs[1..][i]) {
      assert cs[1..][i] == cs[i + 1];
    }
  }

  /** The net of another name, or of a marked one, is scanned past. */
  lemma FindNetsOther(r: Ref, pad: string, rest: string, oldRef: string)
    requires IsDesignator(r.name) && PadOk(pad) && IsDesignator(oldRef) && r != Ref(oldRef, false)
    ensures FindNets(NetText(r, pad) + rest, oldRef) == FindNets(rest, oldRef)
  {
    var u := NetText(r, pad);
    var s := u + rest;
    OtherNetsUnmatched(r, oldRef, pad + ")" + rest);
    assert s == "Net-(" + RefText(r) + "-" + (pad + ")" + rest);
    assert s[1..] == u[1..] + rest;
    forall j | 0 <= j < |u[1..]| ensures !StartsWith((u[1..] + rest)[j..], "Net-(") {
      assert (u[1..] + rest)[j..] == s[j + 1..];
      NetInnerQuiet(r, pad, rest, j + 1);
    }
    FindNetsSkip(u[1..], rest, oldRef);
  }

  /** A plain chunk at the head of a well-formed board file holds no net. */
  lemma FindNetsPlain(cs: seq<Chunk>, oldRef: string)
    requires BoardOk(cs) && cs != [] && cs[0].Plain?
    ensures FindNets(BoardText(cs), oldRef) == FindNets(BoardText(cs[1..]), oldRef)
  {
    var t, rest := cs[0].text, BoardText(cs[1..]);
    BoardOkTail(cs);
    AfterPlain(cs);
    forall j | 0 <= j < |t| ensures !StartsWith((t + rest)[j..], "Net-(") {
      PlainQuiet(t, rest, j);
    }
    FindNetsSkip(t, rest, oldRef);
  }

  /** On a well-formed board file, `re.findall` lists exactly the net names of the unmarked `oldRef`, in order. */
  lemma {:induction false} FindNetsOnBoard(cs: seq<Chunk>, oldRef: string)
    requires BoardOk(cs) && IsDesignator(oldRef)
    ensures FindNets(BoardText(cs), oldRef) == Matching(cs, oldRef)
    decreases |cs|
  {
    if cs != [] {
      var rest := BoardText(cs[1..]);
      BoardOkTail(cs);
      FindNetsOnBoard(cs[1..], oldRef);
      match cs[0]
      case Plain(t) =>
        FindNetsPlain(cs, oldRef);
      case Net(r, pad) =>
        if r == Ref(oldRef, false) {
          FindNetsHit(pad, rest, oldRef);
        } else {
          FindNetsOther(r, pad, rest, oldRef);
        }
    }
  }

  // ---------------------------------------------------------------------------
  // The replacements on a well-formed board file

  lemma StartsWithTrans(s: string, n: string, p: string)
    requires StartsWith(n, p)
    ensures StartsWith(s, n) ==> StartsWith(s, p)
  {
    if StartsWith(s, n) {
      assert s[..|p|] == s[..|n|][..|p|];
    }
  }

  /** `net.replace("(" + old, "(\x01" + new)` on a net of the unmarked `oldRef` writes the marked new name. */
  lemma NetReplacementText(pad: string, rn: Rename)
    requires IsDesignator(rn.oldRef) && PadOk(pad)
    ensures NetReplacement(NetText(Ref(rn.oldRef, false), pad), rn.oldRef, rn.newRef) == NetText(Ref(rn.newRef, true), pad)
  {
    var p, r := "(" + rn.oldRef, "(" + [Marker] + rn.newRef;
    var tail := "-" + pad + ")";
    assert NetText(Ref(rn.oldRef, false), pad) == "Net-" + (p + tail);
    ReplaceClearHead("Net-", p + tail, p, r);
    ReplaceAtHead(p, tail, r);
    assert '(' !in tail by {
      forall j | 0 <= j < |tail| ensures tail[j] != '(' {
        if 0 < j < |tail| - 1 {
          assert tail[j] == pad[j - 1];
        }
      }
    }
    ReplaceAbsentHead(tail, p, r);
    assert NetText(Ref(rn.newRef, true), pad) == "Net-" + (r + tail);
  }

  /** A net that is not the net `n` of the unmarked `oldRef` at `pad0` does not start like it. */
  lemma NetMismatch(c: Chunk, oldRef: string, pad0: string, rest: string)
    requires c.Net? && ChunkOk(c) && IsDesignator(oldRef) && PadOk(pad0)
    requires c != Net(Ref(oldRef, false), pad0)
    ensures !StartsWith(ChunkText(c) + rest, NetText(Ref(oldRef, false), pad0))
  {
    var n := NetText(Ref(oldRef, false), pad0);
    var s := ChunkText(c) + rest;
    NetTextOpen(Ref(oldRef, false), pad0);
    if c.ref != Ref(oldRef, false) {
      OtherNetsUnmatched(c.ref, oldRef, c.pad + ")" + rest);
      assert s == "Net-(" + RefText(c.ref) + "-" + (c.pad + ")" + rest);
      StartsWithTrans(s, n, NetPrefix(oldRef));
    } else {
      var pad := c.pad;
      var k := |NetPrefix(oldRef)|;
      assert s == NetPrefix(oldRef) + pad + ")" + rest;
      assert n == NetPrefix(oldRef) + pad0 + ")";
      if |pad| < |pad0| {
        assert s[k + |pad|] == ')' && n[k + |pad|] == pad0[|pad|];
      } else if |pad| > |pad0| {
        assert s[k + |pad0|] == pad[|pad0|] && n[k + |pad0|] == ')';
      } else {
        var j :| 0 <= j < |pad| && pad[j] != pad0[j];
        assert s[k + j] == pad[j] && n[k + j] == pad0[j];
      }
    }
  }

  /** The net `n` of the unmarked `oldRef` at some pad. */
  ghost predicate NetOfOld(n: string, oldRef: string)
  {
    exists pad :: PadOk(pad) && n == NetText(Ref(oldRef, false), pad)
  }

  /** The chunks after the nets in `nets` were replaced: those nets now carry the marked new name. */
  function MarkNets(cs: seq<Chunk>, rn: Rename, nets: seq<string>): (out: seq<Chunk>)
    ensures |out| == |cs|
  {
    seq(|cs|, i requires 0 <= i < |cs| =>
      if cs[i].Net? && cs[i].ref == Ref(rn.oldRef, false) && ChunkText(cs[i]) in nets
      then Net(Ref(rn.newRef, true), cs[i].pad) else cs[i])
  }

  lemma MarkNetsCons(cs: seq<Chunk>, rn: Rename, nets: seq<string>)
    requires cs != []
    ensures var out := MarkNets(cs, rn, nets);
            BoardText(out) == ChunkText(out[0]) + BoardText(MarkNets(cs[1..], rn, nets))
            && out[0] == if cs[0].Net? && cs[0].ref == Ref(rn.oldRef, false) && ChunkText(cs[0]) in nets
                         then Net(Ref(rn.newRef, true), cs[0].pad) else cs[0]
  {
    assert MarkNets(cs, rn, nets)[1..] == MarkNets(cs[1..], rn, nets);
  }

  /** One `data.replace(net, replacement)` on a well-formed board file. */
  lemma {:induction false} ReplaceOnBoard(cs: seq<Chunk>, rn: Rename, pad0: string)
    requires BoardOk(cs) && IsDesignator(rn.oldRef) && PadOk(pad0)
    ensures var n := NetText(Ref(rn.oldRef, false), pad0);
            Replace(BoardText(cs), n, NetText(Ref(rn.newRef, true), pad0)) == BoardText(MarkNets(cs, rn, [n]))
    decreases |cs|
  {
    var n := NetText(Ref(rn.oldRef, false), pad0);
    var repl := NetText(Ref(rn.newRef, true), pad0);
    NetTextOpen(Ref(rn.oldRef, false), pad0);
    if cs != [] {
      var rest := BoardText(cs[1..]);
      var u := ChunkText(cs[0]);
      BoardOkTail(cs);
      ReplaceOnBoard(cs[1..], rn, pad0);
      MarkNetsCons(cs, rn, [n]);
      if cs[0] == Net(Ref(rn.oldRef, false), pad0) {
        ReplaceAtHead(n, rest, repl);
      } else if cs[0].Plain? {
        ReplaceSkipPlain(cs, n, repl);
      } else {
        ReplaceSkipNet(cs, rn.oldRef, pad0, repl);
      }
    }
  }

  /** A plain chunk at the head of a well-formed board file holds nothing to replace. */
  lemma ReplaceSkipPlain(cs: seq<Chunk>, n: string, repl: string)
    requires BoardOk(cs) && cs != [] && cs[0].Plain? && StartsWith(n, "Net-(")
    ensures Replace(BoardText(cs), n, repl) == ChunkText(cs[0]) + Replace(BoardText(cs[1..]), n, repl)
  {
    var u, rest := ChunkText(cs[0]), BoardText(cs[1..]);
    BoardOkTail(cs);
    AfterPlain(cs);
    forall j | 0 <= j < |u| ensures !StartsWith((u + rest)[j..], n) {
      PlainQuiet(u, rest, j);
      StartsWithTrans((u + rest)[j..], n, "Net-(");
    }
    ReplaceKeepHead(u, rest, n, repl);
  }

  /** A net at the head of a board file other than the net being replaced is kept. */
  lemma ReplaceSkipNet(cs: seq<Chunk>, oldRef: string, pad0: string, repl: string)
    requires BoardOk(cs) && cs != [] && cs[0].Net? && IsDesignator(oldRef) && PadOk(pad0)
    requires cs[0] != Net(Ref(oldRef, false), pad0)
    ensures var n := NetText(Ref(oldRef, false), pad0);
            Replace(BoardText(cs), n, repl) == ChunkText(cs[0]) + Replace(BoardText(cs[1..]), n, repl)
            && ChunkText(cs[0]) != n
  {
    var n := NetText(Ref(oldRef, false), pad0);
    var u, rest := ChunkText(cs[0]), BoardText(cs[1..]);
    BoardOkTail(cs);
    NetTextOpen(Ref(oldRef, false), pad0);
    assert u != n by {
      NetMismatch(cs[0], oldRef, pad0, []);
      assert u + [] == u;
    }
    forall j | 0 <= j < |u| ensures !StartsWith((u + rest)[j..], n) {
      if j == 0 {
        assert (u + rest)[0..] == u + rest;
        NetMismatch(cs[0], oldRef, pad0, rest);
      } else {
        NetInnerQuiet(cs[0].ref, cs[0].pad, rest, j);
        StartsWithTrans((u + rest)[j..], n, "Net-(");
      }
    }
    ReplaceKeepHead(u, rest, n, repl);
  }

  lemma MarkNetsOk(cs: seq<Chunk>, rn: Rename, nets: seq<string>)
    requires BoardOk(cs) && IsDesignator(rn.newRef)
    ensures BoardOk(MarkNets(cs, rn, nets))
  {
    var out := MarkNets(cs, rn, nets);
    forall i | 0 <= i < |cs| ensures ChunkOk(out[i]) && out[i].Plain? == cs[i].Plain? {
      assert ChunkOk(cs[i]);
    }
  }

  lemma MarkNetsSnoc(cs: seq<Chunk>, rn: Rename, prefix: seq<string>, n: string)
    ensures MarkNets(MarkNets(cs, rn, prefix), rn, [n]) == MarkNets(cs, rn, prefix + [n])
  {
    var mid := MarkNets(cs, rn, prefix);
    forall i | 0 <= i < |cs| ensures MarkNets(mid, rn, [n])[i] == MarkNets(cs, rn, prefix + [n])[i] {
      var t := ChunkText(cs[i]);
      assert t in prefix + [n] <==> t in prefix || t == n;
    }
  }

  lemma NetsNonEmpty(nets: seq<string>, oldRef: string)
    requires forall k :: 0 <= k < |nets| ==> NetOfOld(nets[k], oldRef)
    ensures forall k :: 0 <= k < |nets| ==> nets[k] != []
  {
    forall k | 0 <= k < |nets| ensures nets[k] != [] {
      var pad :| PadOk(pad) && nets[k] == NetText(Ref(oldRef, false), pad);
    }
  }

  /** The inner loop of `remap_pcb` on a well-formed board file. */
  lemma {:induction false} ReplaceNetsOnBoard(cs: seq<Chunk>, rn: Rename, nets: seq<string>)
    requires BoardOk(cs) && IsDesignator(rn.oldRef) && IsDesignator(rn.newRef)
    requires forall k :: 0 <= k < |nets| ==> NetOfOld(nets[k], rn.oldRef)
    ensures forall k :: 0 <= k < |nets| ==> nets[k] != []
    ensures ReplaceNets(BoardText(cs), nets, rn.oldRef, rn.newRef) == BoardText(MarkNets(cs, rn, nets))
    decreases |nets|
  {
    NetsNonEmpty(nets, rn.oldRef);
    if nets == [] {
      assert MarkNets(cs, rn, nets) == cs;
    } else {
      var m := |nets| - 1;
      var prefix, n := nets[..m], nets[m];
      assert nets == prefix + [n];
      ReplaceNetsOnBoard(cs, rn, prefix);
      var pad0 :| PadOk(pad0) && n == NetText(Ref(rn.oldRef, false), pad0);
      var mid := MarkNets(cs, rn, prefix);
      MarkNetsOk(cs, rn, prefix);
      ReplaceOnBoard(mid, rn, pad0);
      NetReplacementText(pad0, rn);
      MarkNetsSnoc(cs, rn, prefix, n);
    }
  }

  lemma MatchingNets(cs: seq<Chunk>, oldRef: string)
    requires BoardOk(cs)
    ensures forall k :: 0 <= k < |Matching(cs, oldRef)| ==> NetOfOld(Matching(cs, oldRef)[k], oldRef)
    ensures forall i :: 0 <= i < |cs| && cs[i].Net? && cs[i].ref == Ref(oldRef, false)
              ==> ChunkText(cs[i]) in Matching(cs, oldRef)
    decreases |cs|
  {
    if cs != [] {
      BoardOkTail(cs);
      MatchingNets(cs[1..], oldRef);
      forall i | 1 <= i < |cs| ensures cs[i] == cs[1..][i - 1] {
      }
    }
  }

  lemma MapChunksExt(cs: seq<Chunk>, f: Ref -> Ref, g: Ref -> Ref)
    requires forall r :: f(r) == g(r)
    ensures MapChunks(cs, f) == MapChunks(cs, g)
  {
  }

  lemma MapChunksId(cs: seq<Chunk>, f: Ref -> Ref)
    requires forall r :: f(r) == r
    ensures MapChunks(cs, f) == cs
  {
  }

  lemma MarkNetsAll(cs: seq<Chunk>, rn: Rename, nets: seq<string>)
    requires forall i :: 0 <= i < |cs| && cs[i].Net? && cs[i].ref == Ref(rn.oldRef, false) ==> ChunkText(cs[i]) in nets
    ensures MarkNets(cs, rn, nets) == MapChunks(cs, MarkRef(rn))
  {
    forall i | 0 <= i < |cs| ensures MarkNets(cs, rn, nets)[i] == MapChunks(cs, MarkRef(rn))[i] {
      if cs[i].Net? && cs[i].ref == Ref(rn.oldRef, false) {
        assert ChunkText(cs[i]) in nets;
      }
    }
  }

  /** One processed record on a well-formed board file marks every net of the unmarked `oldRef`, and nothing else. */
  lemma BoardNetStep(cs: seq<Chunk>, rn: Rename)
    requires BoardOk(cs) && IsDesignator(rn.oldRef) && IsDesignator(rn.newRef)
    ensures forall k :: 0 <= k < |Dedup(FindNets(BoardText(cs), rn.oldRef))| ==> Dedup(FindNets(BoardText(cs), rn.oldRef))[k] != []
    ensures ReplaceNets(BoardText(cs), Dedup(FindNets(BoardText(cs), rn.oldRef)), rn.oldRef, rn.newRef)
         == BoardText(MapChunks(cs, MarkRef(rn)))
  {
    FindNetsOnBoard(cs, rn.oldRef);
    var found := Matching(cs, rn.oldRef);
    MatchingNets(cs, rn.oldRef);
    var nets := Dedup(found);
    forall k | 0 <= k < |nets| ensures NetOfOld(nets[k], rn.oldRef) {
      assert nets[k] in found;
    }
    ReplaceNetsOnBoard(cs, rn, nets);
    MarkNetsAll(cs, rn, nets);
  }

  lemma BoardStep(cs: seq<Chunk>, rn: Rename, skipUnchanged: bool, count: nat)
    requires BoardOk(cs) && IsDesignator(rn.oldRef) && IsDesignator(rn.newRef)
    ensures NetStep(NetPass(BoardText(cs), count), rn, false, skipUnchanged)
         == NetPass(BoardText(MapChunks(cs, NetStepFn(rn, skipUnchanged))),
                    count + if Processed(rn.oldRef, rn.newRef, skipUnchanged) then 1 else 0)
  {
    if Processed(rn.oldRef, rn.newRef, skipUnchanged) {
      BoardNetStep(cs, rn);
      MapChunksExt(cs, MarkRef(rn), NetStepFn(rn, skipUnchanged));
    } else {
      MapChunksId(cs, NetStepFn(rn, skipUnchanged));
    }
  }

  // ---------------------------------------------------------------------------
  // The whole net pass on a well-formed board file

  lemma {:induction false} NetRefAfterNames(rs: seq<Rename>, skipUnchanged: bool, r: Ref)
    requires IsDesignator(r.name)
    requires forall k :: 0 <= k < |rs| ==> IsDesignator(rs[k].newRef)
    ensures IsDesignator(NetRefAfter(rs, skipUnchanged, r).name)
    decreases |rs|
  {
    if rs != [] {
      NetRefAfterNames(rs[..|rs| - 1], skipUnchanged, r);
    }
  }

  lemma {:induction false} PassOnBoard(cs: seq<Chunk>, rs: seq<Rename>, skipUnchanged: bool)
    requires BoardOk(cs)
    requires forall k :: 0 <= k < |rs| ==> IsDesignator(rs[k].oldRef) && IsDesignator(rs[k].newRef)
    ensures NetSteps(NetPass(BoardText(cs), 0), rs, false, skipUnchanged)
         == NetPass(BoardText(MapChunks(cs, NetAfterFn(rs, skipUnchanged))), ProcessedCount(rs, skipUnchanged))
    decreases |rs|
  {
    if rs == [] {
      MapChunksId(cs, NetAfterFn(rs, skipUnchanged));
    } else {
      var m := |rs| - 1;
      var prefix, rn := rs[..m], rs[m];
      PassOnBoard(cs, prefix, skipUnchanged);
      forall r: Ref | IsDesignator(r.name) ensures IsDesignator(NetAfterFn(prefix, skipUnchanged)(r).name) {
        NetRefAfterNames(prefix, skipUnchanged, r);
      }
      MapChunksOk(cs, NetAfterFn(prefix, skipUnchanged));
      BoardStep(MapChunks(cs, NetAfterFn(prefix, skipUnchanged)), rn, skipUnchanged, ProcessedCount(prefix, skipUnchanged));
      MapChunksCompose(cs, NetAfterFn(prefix, skipUnchanged), NetStepFn(rn, skipUnchanged), NetAfterFn(rs, skipUnchanged));
    }
  }

  lemma {:induction false} NetRefAfterUntouched(rs: seq<Rename>, skipUnchanged: bool, x: string)
    requires forall k :: 0 <= k < |rs| ==> rs[k].oldRef != x
    ensures NetRefAfter(rs, skipUnchanged, Ref(x, false)) == Ref(x, false)
    ensures Lookup(rs, x) == x
    decreases |rs|
  {
    if rs != [] {
      NetRefAfterUntouched(rs[..|rs| - 1], skipUnchanged, x);
    }
  }

  /** With distinct old names, the records in turn give each net its new name by lookup among the original names. */
  lemma {:induction false} NetRefAfterLookup(rs: seq<Rename>, skipUnchanged: bool, x: string)
    requires forall k, l :: 0 <= k < l < |rs| ==> rs[k].oldRef != rs[l].oldRef
    ensures NetRefAfter(rs, skipUnchanged, Ref(x, false)).name == Lookup(rs, x)
    ensures !NetRefAfter(rs, skipUnchanged, Ref(x, false)).marked ==> Lookup(rs, x) == x
    decreases |rs|
  {
    if rs != [] {
      var m := |rs| - 1;
      var prefix := rs[..m];
      if rs[m].oldRef == x {
        NetRefAfterUntouched(prefix, skipUnchanged, x);
      } else {
        NetRefAfterLookup(prefix, skipUnchanged, x);
      }
    }
  }

  lemma BoardClean(cs: seq<Chunk>)
    requires BoardOk(cs)
    ensures DropMarkers(BoardText(cs)) == BoardText(MapChunks(cs, Unmark))
    decreases |cs|
  {
    if cs != [] {
      BoardOkTail(cs);
      BoardClean(cs[1..]);
      assert MapChunks(cs, Unmark)[1..] == MapChunks(cs[1..], Unmark);
      DropMarkersAppend(ChunkText(cs[0]), BoardText(cs[1..]));
      match cs[0]
      case Plain(t) =>
        DropMarkersClean(t);
      case Net(r, pad) =>
        NetClean(r, pad);
    }
  }

  lemma DesignatorClean(name: string)
    requires IsDesignator(name)
    ensures Marker !in name
  {
    forall j | 0 <= j < |name| ensures name[j] != Marker {
      assert IsDesignatorChar(name[j]);
    }
  }

  lemma PadClean(pad: string)
    requires PadOk(pad)
    ensures Marker !in "-" + pad + ")"
  {
    var tail := "-" + pad + ")";
    forall j | 0 <= j < |tail| ensures tail[j] != Marker {
      if 0 < j < |tail| - 1 {
        assert tail[j] == pad[j - 1];
      }
    }
  }

  lemma NetClean(r: Ref, pad: string)
    requires IsDesignator(r.name) && PadOk(pad)
    ensures DropMarkers(NetText(r, pad)) == NetText(Unmark(r), pad)
  {
    var tail := "-" + pad + ")";
    var head := "Net-(" + RefText(r);
    assert NetText(r, pad) == head + tail;
    assert NetText(Unmark(r), pad) == "Net-(" + r.name + tail;
    PadClean(pad);
    DesignatorClean(r.name);
    DropMarkersAppend(head, tail);
    DropMarkersClean(tail);
    DropMarkersAppend("Net-(", RefText(r));
    DropMarkersClean("Net-(");
    DropMarkersClean(r.name);
    if r.marked {
      DropMarkersAppend([Marker], r.name);
      assert DropMarkers([Marker]) == [];
    }
  }

  /**
   * The net half of `remap_pcb` on a well-formed board file renames the nets
   * of every designator at once: the file written back holds each net under
   * its designator's new name, looked up among the original names, so swaps
   * and chains come out right and the nets of `R10` are untouched when `R1`
   * is renamed.
   */
  lemma RemapNetsRenames(cs: seq<Chunk>, rs: seq<Rename>, skipUnchanged: bool)
    requires BoardOk(cs) && BoardUnmarked(cs)
    requires forall k :: 0 <= k < |rs| ==> IsDesignator(rs[k].oldRef) && IsDesignator(rs[k].newRef)
    requires forall k, l :: 0 <= k < l < |rs| ==> rs[k].oldRef != rs[l].oldRef
    ensures RemapNetsSpec(BoardText(cs), rs, false, skipUnchanged)
         == PcbOutcome(Some(BoardText(MapChunks(cs, LookupFn(rs)))), ProcessedCount(rs, skipUnchanged))
  {
    PassOnBoard(cs, rs, skipUnchanged);
    var after := MapChunks(cs, NetAfterFn(rs, skipUnchanged));
    StripDropsMarkers(BoardText(after));
    forall r: Ref | IsDesignator(r.name) ensures IsDesignator(NetAfterFn(rs, skipUnchanged)(r).name) {
      NetRefAfterNames(rs, skipUnchanged, r);
    }
    MapChunksOk(cs, NetAfterFn(rs, skipUnchanged));
    BoardClean(after);
    MapChunksCompose(cs, NetAfterFn(rs, skipUnchanged), Unmark, r => Unmark(NetRefAfter(rs, skipUnchanged, r)));
    forall x ensures Unmark(NetRefAfter(rs, skipUnchanged, Ref(x, false))) == LookupFn(rs)(Ref(x, false)) {
      NetRefAfterLookup(rs, skipUnchanged, x);
    }
    MapChunksAgree(cs, r => Unmark(NetRefAfter(rs, skipUnchanged, r)), LookupFn(rs));
  }

  lemma {:induction false} LookupUnchanged(rs: seq<Rename>, x: string)
    requires forall k :: 0 <= k < |rs| ==> rs[k].oldRef == rs[k].newRef
    ensures Lookup(rs, x) == x
    decreases |rs|
  {
    if rs != [] {
      LookupUnchanged(rs[..|rs| - 1], x);
    }
  }

  /**
   * back_annotate.py processes the records whose designator stays too: their
   * nets are rewritten with the marker, and the strip gives back the file
   * exactly as it was.
   */
  lemma UnchangedNetsKept(cs: seq<Chunk>, rs: seq<Rename>)
    requires BoardOk(cs) && BoardUnmarked(cs)
    requires forall k :: 0 <= k < |rs| ==> IsDesignator(rs[k].oldRef) && rs[k].oldRef == rs[k].newRef
    requires forall k, l :: 0 <= k < l < |rs| ==> rs[k].oldRef != rs[l].oldRef
    ensures RemapNetsSpec(BoardText(cs), rs, false, false).written == Some(BoardText(cs))
  {
    RemapNetsRenames(cs, rs, false);
    forall x ensures LookupFn(rs)(Ref(x, false)) == Ref(x, false) {
      LookupUnchanged(rs, x);
    }
    MapChunksAgree(cs, LookupFn(rs), r => r);
    MapChunksId(cs, r => r);
  }
}
