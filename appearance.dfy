/**
 * Renaming a radio widget's "on" appearance state (python/generate_form.py:443-462).
 *
 * The text of an appearance dictionary is searched for its first normal-appearance
 * sub-dictionary `/N << ... >>` (the body ends at the first `>>`). Inside it the
 * entries `/name N G R` are visited left to right, as `re.sub` visits them, and
 * the first one whose name is not `Off` gets the new name; its reference is kept.
 */
module Appearance {
  import opened Wrappers
  import opened Text
  import opened RefArray

  /**
   * One match of `/([^/\s]+)\s+(\d+\s+\d+\s+R)`: it spans `start..stop`, the name
   * is `start + 1..nameEnd` and the reference `refStart..stop`.
   */
  datatype Entry = Entry(start: nat, nameEnd: nat, refStart: nat, stop: nat)

  predicate EntryIn(s: string, m: Entry) {
    m.start < m.nameEnd < m.refStart < m.stop <= |s|
  }

  function EntryName(s: string, m: Entry): string
    requires EntryIn(s, m)
  {
    s[m.start + 1..m.nameEnd]
  }

  function EntryRef(s: string, m: Entry): string
    requires EntryIn(s, m)
  {
    s[m.refStart..m.stop]
  }

  /**
   * The classes the entry pattern reads one run of each, in order: 1 the name
   * `[^/\s]`, then whitespace, digits, whitespace, digits, whitespace (2 to 6);
   * stage 7 is the final `R`.
   */
  predicate InClass(stage: nat, c: char) {
    if stage == 1 then c != '/' && !IsSpace(c)
    else if stage == 3 || stage == 5 then IsDigit(c)
    else IsSpace(c)
  }

  /**
   * The pattern run from position j in the given stage, as the matcher runs it:
   * each run takes at least one character and is greedy, and `any` says whether
   * the current run has taken one. `m` holds the positions found so far. The
   * classes of neighbouring runs are disjoint, so no run ever has to give back
   * a character and this is the only way the pattern can match.
   */
  function EntryRun(s: string, j: nat, stage: nat, any: bool, m: Entry): (r: Option<Entry>)
    requires j <= |s| && 1 <= stage <= 7 && m.start < j
    requires stage >= 2 ==> m.start < m.nameEnd <= j
    requires stage == 2 && any ==> m.nameEnd < j
    requires stage >= 3 ==> m.nameEnd < m.refStart <= j
    ensures r.Some? ==> r.value.start == m.start && EntryIn(s, r.value)
    decreases |s| - j, 7 - stage
  {
    if stage == 7 then (if j < |s| && s[j] == 'R' then Some(m.(stop := j + 1)) else None)
    else if j < |s| && InClass(stage, s[j]) then EntryRun(s, j + 1, stage, true, m)
    else if !any then None
    else if stage == 1 then EntryRun(s, j, 2, false, m.(nameEnd := j))
    else if stage == 2 then EntryRun(s, j, 3, false, m.(refStart := j))
    else EntryRun(s, j, stage + 1, false, m)
  }

  /** The match of the entry pattern at position i, if there is one. */
  function EntryAt(s: string, i: nat): (r: Option<Entry>)
    requires i <= |s|
    ensures r.Some? ==> r.value.start == i && EntryIn(s, r.value) && s[i] == '/'
  {
    if i == |s| || s[i] != '/' then None else EntryRun(s, i + 1, 1, false, Entry(i, i, i, i))
  }

  /** A `>>` starts at position j. */
  predicate CloseAt(s: string, j: nat) {
    j + 2 <= |s| && s[j] == '>' && s[j + 1] == '>'
  }

  /** First index j >= i where `>>` starts: the end of the lazy `.*?`. */
  function CloseFrom(s: string, i: nat): (r: Option<nat>)
    requires i <= |s|
    ensures r.Some? ==> i <= r.value && CloseAt(s, r.value)
    decreases |s| - i
  {
    if i + 2 > |s| then None
    else if CloseAt(s, i) then Some(i)
    else CloseFrom(s, i + 1)
  }

  /** The `>>` found is the first one from i; when none is found there is none. */
  lemma {:induction false} CloseFromIsFirst(s: string, i: nat)
    requires i <= |s|
    ensures CloseFrom(s, i).Some? ==> forall j :: i <= j < CloseFrom(s, i).value ==> !CloseAt(s, j)
    ensures CloseFrom(s, i).None? ==> forall j :: i <= j ==> !CloseAt(s, j)
    decreases |s| - i
  {
    if i + 2 <= |s| && !CloseAt(s, i) {
      CloseFromIsFirst(s, i + 1);
    }
  }

  /** A match of `(/N\s*<<)(.*?)(>>)`: it spans `start..innerEnd + 2`, the body is `innerStart..innerEnd`. */
  datatype Block = Block(start: nat, innerStart: nat, innerEnd: nat)

  predicate BlockIn(s: string, b: Block) {
    b.start + 4 <= b.innerStart <= b.innerEnd && b.innerEnd + 2 <= |s|
  }

  function BlockAt(s: string, p: nat): (r: Option<Block>)
    requires p <= |s|
    ensures r.Some? ==> (r.value.start == p && BlockIn(s, r.value)
      && s[r.value.innerEnd] == '>' && s[r.value.innerEnd + 1] == '>')
  {
    if p + 2 > |s| || s[p] != '/' || s[p + 1] != 'N' then None
    else
      var k := SpacesFrom(s, p + 2);
      if k + 2 > |s| || s[k] != '<' || s[k + 1] != '<' then None
      else match CloseFrom(s, k + 2)
        case None => None
        case Some(e) => Some(Block(p, k + 2, e))
  }

  /** `re.search`: the leftmost position from p where the block pattern matches. */
  function FindBlock(s: string, p: nat): (r: Option<Block>)
    requires p <= |s|
    ensures r.Some? ==> p <= r.value.start <= |s| && BlockAt(s, r.value.start) == r
    decreases |s| - p
  {
    if p == |s| then None
    else match BlockAt(s, p)
      case Some(b) => Some(b)
      case None => FindBlock(s, p + 1)
  }

  /** The block found is the leftmost one from p; when none is found there is none. */
  lemma {:induction false} FindBlockIsLeftmost(s: string, p: nat)
    requires p <= |s|
    ensures FindBlock(s, p).Some? ==> forall q :: p <= q < FindBlock(s, p).value.start ==> BlockAt(s, q).None?
    ensures FindBlock(s, p).None? ==> forall q :: p <= q <= |s| ==> BlockAt(s, q).None?
    decreases |s| - p
  {
    if p < |s| && BlockAt(s, p).None? {
      FindBlockIsLeftmost(s, p + 1);
    }
  }

  /** What `re.sub` meets while scanning: a character it copies, or a match of the entry pattern. */
  datatype Piece = Char(c: char) | Match(name: string, gap: string, ref: string)

  function PieceText(p: Piece): string {
    match p
    case Char(c) => [c]
    case Match(name, gap, ref) => "/" + name + gap + ref
  }

  function Render(ps: seq<Piece>): string {
    if ps == [] then [] else PieceText(ps[0]) + Render(ps[1..])
  }

  function EntryPiece(s: string, m: Entry): Piece
    requires EntryIn(s, m)
  {
    Match(EntryName(s, m), s[m.nameEnd..m.refStart], EntryRef(s, m))
  }

  /** The scan of `re.sub` over `s[i..]`: matches left to right, resuming after each one. */
  function Scan(s: string, i: nat): (ps: seq<Piece>)
    requires i <= |s|
    ensures Render(ps) == s[i..]
    decreases |s| - i
  {
    if i == |s| then
      assert s[i..] == [];
      []
    else match EntryAt(s, i)
      case Some(m) =>
        var rest := Scan(s, m.stop);
        EntryText(s, m);
        RenderPrepend(EntryPiece(s, m), rest);
        SliceRest(s, i, m.stop);
        [EntryPiece(s, m)] + rest
      case None =>
        var rest := Scan(s, i + 1);
        RenderPrepend(Char(s[i]), rest);
        SliceRest(s, i, i + 1);
        assert s[i..i + 1] == [s[i]];
        [Char(s[i])] + rest
  }

  lemma SliceRest(s: string, a: nat, b: nat)
    requires a <= b <= |s|
    ensures s[a..b] + s[b..] == s[a..]
  {
  }

  lemma RenderPrepend(p: Piece, ps: seq<Piece>)
    ensures Render([p] + ps) == PieceText(p) + Render(ps)
  {
    assert ([p] + ps)[0] == p && ([p] + ps)[1..] == ps;
  }

  /** A match the callback renames: one whose name is not `Off`. */
  predicate IsOn(p: Piece) { p.Match? && p.name != "Off" }

  /** The text the callback returns for a renamed match: `/new ref`. */
  function Renamed(p: Piece, newState: string): string
    requires p.Match?
  {
    "/" + newState + " " + p.ref
  }

  /**
   * `re.sub` with the callback `repl` and its `replaced` flag: every match is
   * kept unless it is the first one not named `Off`, which is renamed.
   */
  function SubPieces(ps: seq<Piece>, replaced: bool, newState: string): (string, bool) {
    if ps == [] then ([], replaced)
    else
      var keep := !IsOn(ps[0]) || replaced;
      var rest := SubPieces(ps[1..], replaced || !keep, newState);
      ((if keep then PieceText(ps[0]) else Renamed(ps[0], newState)) + rest.0, rest.1)
  }

  /** The index of the first match not named `Off`. */
  function FirstOn(ps: seq<Piece>): (r: Option<nat>)
    ensures r.Some? ==> r.value < |ps| && IsOn(ps[r.value])
  {
    if ps == [] then None
    else if IsOn(ps[0]) then Some(0)
    else match FirstOn(ps[1..])
      case None => None
      case Some(k) => Some(k + 1)
  }

  /** The match `FirstOn` picks has no match not named `Off` before it; with none picked there is none at all. */
  lemma {:induction false} FirstOnIsFirst(ps: seq<Piece>)
    ensures FirstOn(ps).Some? ==> forall j :: 0 <= j < FirstOn(ps).value ==> !IsOn(ps[j])
    ensures FirstOn(ps).None? ==> forall j :: 0 <= j < |ps| ==> !IsOn(ps[j])
  {
    if ps != [] && !IsOn(ps[0]) {
      FirstOnIsFirst(ps[1..]);
      assert forall j :: 1 <= j < |ps| ==> ps[j] == ps[1..][j - 1];
    }
  }

  /** `_replace_on_state_in_dict(s, newState)`: the rewritten text and whether an entry was renamed. */
  function ReplaceOnState(s: string, newState: string): (string, bool) {
    match FindBlock(s, 0)
    case None => (s, false)
    case Some(blk) =>
      var sub := SubPieces(Scan(s[blk.innerStart..blk.innerEnd], 0), false, newState);
      if !sub.1 then (s, false)
      else (s[..blk.start] + (s[blk.start..blk.innerStart] + sub.0 + ">>") + s[blk.innerEnd + 2..], true)
  }

  lemma EntryText(s: string, m: Entry)
    requires EntryIn(s, m) && s[m.start] == '/'
    ensures PieceText(EntryPiece(s, m)) == s[m.start..m.stop]
  {
    assert s[m.start..m.stop] == [s[m.start]] + s[m.start + 1..m.nameEnd] + s[m.nameEnd..m.refStart] + s[m.refStart..m.stop];
  }

  lemma {:induction false} RenderSplit(ps: seq<Piece>, k: nat)
    requires k < |ps|
    ensures Render(ps) == Render(ps[..k]) + PieceText(ps[k]) + Render(ps[k + 1..])
  {
    if k > 0 {
      var tail := ps[1..];
      RenderSplit(tail, k - 1);
      assert tail[..k - 1] == ps[1..k] && tail[k - 1] == ps[k] && tail[k..] == ps[k + 1..];
      RenderSplitStep(ps, k);
    } else {
      RenderSplitHead(ps);
    }
  }

  lemma RenderSplitHead(ps: seq<Piece>)
    requires 0 < |ps|
    ensures Render(ps) == Render(ps[..0]) + PieceText(ps[0]) + Render(ps[1..])
  {
    var head, rest := PieceText(ps[0]), Render(ps[1..]);
    assert ps[..0] == [];
    assert Render(ps) == head + rest;
    assert Render(ps[..0]) + head == head;
  }

  lemma RenderSplitStep(ps: seq<Piece>, k: nat)
    requires 0 < k < |ps|
    requires Render(ps[1..]) == Render(ps[1..k]) + PieceText(ps[k]) + Render(ps[k + 1..])
    ensures Render(ps) == Render(ps[..k]) + PieceText(ps[k]) + Render(ps[k + 1..])
  {
    assert Render(ps) == PieceText(ps[0]) + Render(ps[1..]);
    RenderCons(ps, k);
    Regroup(PieceText(ps[0]), Render(ps[1..k]), PieceText(ps[k]), Render(ps[k + 1..]));
  }

  /** Once an entry has been renamed, the rest of the text is copied. */
  lemma {:induction false} SubAfterReplaced(ps: seq<Piece>, newState: string)
    ensures SubPieces(ps, true, newState) == (Render(ps), true)
  {
    if ps != [] { SubAfterReplaced(ps[1..], newState); }
  }

  /** With no match left that is not named `Off`, nothing is renamed and the text is copied. */
  lemma {:induction false} SubNoOn(ps: seq<Piece>, newState: string)
    requires FirstOn(ps).None?
    ensures SubPieces(ps, false, newState) == (Render(ps), false)
  {
    if ps != [] { SubNoOn(ps[1..], newState); }
  }

  lemma SubHeadOn(ps: seq<Piece>, newState: string)
    requires ps != [] && IsOn(ps[0])
    ensures SubPieces(ps, false, newState) == (Renamed(ps[0], newState) + Render(ps[1..]), true)
  {
    SubAfterReplaced(ps[1..], newState);
  }

  lemma RenderCons(ps: seq<Piece>, k: nat)
    requires 0 < k <= |ps|
    ensures Render(ps[..k]) == PieceText(ps[0]) + Render(ps[1..k])
  {
    assert ps[..k][0] == ps[0] && ps[..k][1..] == ps[1..k];
  }

  lemma SubSkip(ps: seq<Piece>, newState: string)
    requires ps != [] && !IsOn(ps[0])
    ensures SubPieces(ps, false, newState)
      == (PieceText(ps[0]) + SubPieces(ps[1..], false, newState).0, SubPieces(ps[1..], false, newState).1)
  {
  }

  lemma FirstOnTail(ps: seq<Piece>, k: nat)
    requires FirstOn(ps) == Some(k) && k > 0
    ensures !IsOn(ps[0]) && FirstOn(ps[1..]) == Some(k - 1)
  {
  }

  lemma Regroup(a: string, x: string, y: string, z: string)
    ensures a + (x + y + z) == (a + x) + y + z
  {
  }

  /** Otherwise exactly that match is renamed and everything around it is copied. */
  lemma {:induction false} SubFirstOn(ps: seq<Piece>, k: nat, newState: string)
    requires FirstOn(ps) == Some(k)
    ensures SubPieces(ps, false, newState) == (Render(ps[..k]) + Renamed(ps[k], newState) + Render(ps[k + 1..]), true)
  {
    if k == 0 {
      SubFirstOnHead(ps, newState);
    } else {
      var tail := ps[1..];
      FirstOnTail(ps, k);
      SubFirstOn(tail, k - 1, newState);
      assert tail[..k - 1] == ps[1..k] && tail[k - 1] == ps[k] && tail[k..] == ps[k + 1..];
      SubFirstOnStep(ps, k, newState);
    }
  }

  /** A match in front is the one renamed. */
  lemma SubFirstOnHead(ps: seq<Piece>, newState: string)
    requires ps != [] && IsOn(ps[0])
    ensures SubPieces(ps, false, newState) == (Render(ps[..0]) + Renamed(ps[0], newState) + Render(ps[1..]), true)
  {
    SubHeadOn(ps, newState);
    assert Render(ps[..0]) == [] by { assert ps[..0] == []; }
    var y := Renamed(ps[0], newState) + Render(ps[1..]);
    assert Render(ps[..0]) + Renamed(ps[0], newState) + Render(ps[1..]) == y;
  }

  /** A non-matching piece in front is copied ahead of the renamed rest. */
  lemma SubFirstOnStep(ps: seq<Piece>, k: nat, newState: string)
    requires 0 < k < |ps| && !IsOn(ps[0]) && IsOn(ps[k])
    requires SubPieces(ps[1..], false, newState) == (Render(ps[1..k]) + Renamed(ps[k], newState) + Render(ps[k + 1..]), true)
    ensures SubPieces(ps, false, newState) == (Render(ps[..k]) + Renamed(ps[k], newState) + Render(ps[k + 1..]), true)
  {
    SubSkip(ps, newState);
    RenderCons(ps, k);
    Regroup(PieceText(ps[0]), Render(ps[1..k]), Renamed(ps[k], newState), Render(ps[k + 1..]));
  }

  lemma SliceJoin(s: string, a: nat, b: nat, c: nat)
    requires a <= b <= c <= |s|
    ensures s[a..b] + s[b..c] == s[a..c]
  {
  }

  lemma RegroupAround(a: string, x: string, t: string, y: string, c: string)
    ensures a + (x + t + y) + c == (a + x) + t + (y + c)
  {
  }

  lemma RegroupBlock(p: string, o: string, x: string, r: string, y: string, g: string, d: string)
    ensures p + (o + (x + r + y) + g) + d == ((p + o) + x) + r + (y + (g + d))
  {
  }

  /** The text around a block body: what comes before it and what comes after it. */
  lemma AroundBody(s: string, blk: Block, x: string, t: string, y: string)
    requires BlockIn(s, blk) && s[blk.innerStart..blk.innerEnd] == x + t + y
    ensures s == (s[..blk.innerStart] + x) + t + (y + s[blk.innerEnd..])
  {
    var a, c := s[..blk.innerStart], s[blk.innerEnd..];
    SliceJoin(s, 0, blk.innerStart, blk.innerEnd);
    SliceJoin(s, 0, blk.innerEnd, |s|);
    assert s[0..|s|] == s && a == s[0..blk.innerStart] && s[..blk.innerEnd] == s[0..blk.innerEnd];
    RegroupAround(a, x, t, y, c);
  }

  /** Putting a rewritten body back between the block's opening and its `>>`. */
  lemma Reassemble(s: string, blk: Block, x: string, r: string, y: string)
    requires BlockIn(s, blk) && s[blk.innerEnd] == '>' && s[blk.innerEnd + 1] == '>'
    ensures s[..blk.start] + (s[blk.start..blk.innerStart] + (x + r + y) + ">>") + s[blk.innerEnd + 2..]
      == (s[..blk.innerStart] + x) + r + (y + s[blk.innerEnd..])
  {
    var p, o, g, d := s[..blk.start], s[blk.start..blk.innerStart], ">>", s[blk.innerEnd + 2..];
    SliceJoin(s, 0, blk.start, blk.innerStart);
    assert p == s[0..blk.start] && s[..blk.innerStart] == s[0..blk.innerStart];
    SliceJoin(s, blk.innerEnd, blk.innerEnd + 2, |s|);
    assert s[blk.innerEnd..blk.innerEnd + 2] == g;
    assert s[blk.innerEnd..|s|] == s[blk.innerEnd..] && s[blk.innerEnd + 2..|s|] == d;
    RegroupBlock(p, o, x, r, y, g, d);
  }

  /** The scan of the body of a block. */
  function BodyScan(s: string, blk: Block): seq<Piece>
    requires BlockIn(s, blk)
  {
    Scan(s[blk.innerStart..blk.innerEnd], 0)
  }

  /** With no `/N << ... >>` block the text is returned unchanged, with `false`. */
  lemma ReplaceNoBlock(s: string, newState: string)
    requires FindBlock(s, 0).None?
    ensures ReplaceOnState(s, newState) == (s, false)
  {
  }

  /** With a block none of whose entries is named other than `Off`, likewise. */
  lemma ReplaceNoOnEntry(s: string, newState: string, blk: Block)
    requires FindBlock(s, 0) == Some(blk) && FirstOn(BodyScan(s, blk)).None?
    ensures ReplaceOnState(s, newState) == (s, false)
  {
    SubNoOn(BodyScan(s, blk), newState);
  }

  /** What `ReplaceOnState` does once the block is found. */
  lemma ReplaceInBlock(s: string, newState: string, blk: Block)
    requires FindBlock(s, 0) == Some(blk)
    ensures BlockIn(s, blk) && s[blk.innerEnd] == '>' && s[blk.innerEnd + 1] == '>'
    ensures var sub := SubPieces(BodyScan(s, blk), false, newState);
      ReplaceOnState(s, newState)
        == if sub.1 then (s[..blk.start] + (s[blk.start..blk.innerStart] + sub.0 + ">>") + s[blk.innerEnd + 2..], true)
           else (s, false)
  {
  }

  /** Renaming the k-th piece of a body whose pieces spell it out. */
  lemma RenameInBody(s: string, blk: Block, ps: seq<Piece>, k: nat, newState: string)
    requires BlockIn(s, blk) && s[blk.innerEnd] == '>' && s[blk.innerEnd + 1] == '>'
    requires Render(ps) == s[blk.innerStart..blk.innerEnd] && FirstOn(ps) == Some(k)
    ensures var before, after := s[..blk.innerStart] + Render(ps[..k]), Render(ps[k + 1..]) + s[blk.innerEnd..];
      var sub := SubPieces(ps, false, newState);
      s == before + PieceText(ps[k]) + after
      && sub.1
      && s[..blk.start] + (s[blk.start..blk.innerStart] + sub.0 + ">>") + s[blk.innerEnd + 2..]
        == before + Renamed(ps[k], newState) + after
  {
    SubFirstOn(ps, k, newState);
    RenderSplit(ps, k);
    AroundBody(s, blk, Render(ps[..k]), PieceText(ps[k]), Render(ps[k + 1..]));
    Reassemble(s, blk, Render(ps[..k]), Renamed(ps[k], newState), Render(ps[k + 1..]));
  }

  /**
   * Otherwise, with the block body scanned into pieces `ps` and the k-th the
   * first entry not named `Off`, the input is `before + PieceText(ps[k]) + after`
   * and the result is `before + "/new ref" + after` and `true`: exactly that
   * entry is renamed, its reference kept, and all other text, in particular all
   * text outside the block, is unchanged.
   */
  lemma ReplaceFirstOnEntry(s: string, newState: string, blk: Block, k: nat)
    requires FindBlock(s, 0) == Some(blk) && FirstOn(BodyScan(s, blk)) == Some(k)
    ensures var ps := BodyScan(s, blk);
      var before, after := s[..blk.innerStart] + Render(ps[..k]), Render(ps[k + 1..]) + s[blk.innerEnd..];
      s == before + PieceText(ps[k]) + after
      && ReplaceOnState(s, newState) == (before + Renamed(ps[k], newState) + after, true)
  {
    ReplaceInBlock(s, newState, blk);
    assert s[blk.innerStart..blk.innerEnd][0..] == s[blk.innerStart..blk.innerEnd];
    RenameInBody(s, blk, BodyScan(s, blk), k, newState);
  }
}
