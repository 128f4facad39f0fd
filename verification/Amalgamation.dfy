/**
 The include amalgamator: every resolvable include directive is turned into a comment, and
 the first one that names a file, in depth-first order, is followed by that file's text.

 A file is given as what the scanner finds in it: plain text, `#pragma once` directives, and
 include directives with the path they resolve to. Directives that resolve to no file, or
 stand in a comment or string, are plain text.
 */
module Amalgamation {
  import opened Wrappers
  import opened Sequences

  type Path = string

  datatype Segment = Text(text: string) | PragmaOnce(text: string) | Include(directive: string, path: Path)

  type Files = map<Path, seq<Segment>>

  /** Resolving an include only ever yields the path of an existing file. */
  predicate Resolved(files: Files) {
    forall p | p in files :: ResolvedIn(files, files[p])
  }

  predicate ResolvedIn(files: Files, segs: seq<Segment>) {
    forall i | 0 <= i < |segs| && segs[i].Include? :: segs[i].path in files
  }

  // ---------------------------------------------------------------- what is produced

  /** Output with its nesting kept: a directive's comment, or that and the file spliced in behind it. */
  datatype Piece =
    | Plain(text: string)
    | Comment(directive: string, path: Path)
    | Spliced(directive: string, path: Path, body: seq<Piece>)

  function CommentLine(directive: string): string {
    "// " + directive + "\n"
  }

  function Flatten(ps: seq<Piece>): string {
    if ps == [] then "" else FlattenPiece(ps[0]) + Flatten(ps[1..])
  }

  function FlattenPiece(p: Piece): string {
    match p
    case Plain(t) => t
    case Comment(d, _) => CommentLine(d)
    case Spliced(d, _, body) => CommentLine(d) + Flatten(body)
  }

  /** Every directive met, in output order, and whether its file was spliced in there. */
  function Encounters(ps: seq<Piece>): seq<(Path, bool)> {
    if ps == [] then [] else EncountersIn(ps[0]) + Encounters(ps[1..])
  }

  function EncountersIn(p: Piece): seq<(Path, bool)> {
    match p
    case Plain(_) => []
    case Comment(_, q) => [(q, false)]
    case Spliced(_, q, body) => [(q, true)] + Encounters(body)
  }

  function PathsOf(enc: seq<(Path, bool)>): set<Path> {
    set i | 0 <= i < |enc| :: enc[i].0
  }

  /** A file is spliced in at its first encounter and at no other, unless it was there before. */
  ghost predicate SplicedAtFirst(enc: seq<(Path, bool)>, before: set<Path>) {
    forall i | 0 <= i < |enc| :: enc[i].1 <==> enc[i].0 !in before + PathsOf(enc[..i])
  }

  /** The pieces spell the segments, and each spliced body spells the file it names. */
  predicate Spells(files: Files, ps: seq<Piece>, segs: seq<Segment>, isRoot: bool)
    decreases ps, |segs|
  {
    if segs == [] then ps == []
    else match segs[0]
         case Text(t) => ps != [] && ps[0] == Plain(t) && Spells(files, ps[1..], segs[1..], isRoot)
         case PragmaOnce(t) =>
           if isRoot then ps != [] && ps[0] == Plain(t) && Spells(files, ps[1..], segs[1..], isRoot)
           else Spells(files, ps, segs[1..], isRoot)
         case Include(d, q) =>
           && ps != []
           && !ps[0].Plain?
           && ps[0].directive == d && ps[0].path == q
           && (ps[0].Spliced? ==> q in files && Spells(files, ps[0].body, files[q], false))
           && Spells(files, ps[1..], segs[1..], isRoot)
  }

  // ---------------------------------------------------------------- the expansion

  function SetOf(seen: seq<Path>): set<Path> {
    set p | p in seen
  }

  function Unseen(files: Files, seen: seq<Path>): set<Path> {
    files.Keys - SetOf(seen)
  }

  /** A piece list together with the list of included files after producing it. */
  datatype Expansion = Expansion(pieces: seq<Piece>, seen: seq<Path>)

  /** A translation unit: record the file, then process its text. */
  function Unit(files: Files, p: Path, isRoot: bool, seen: seq<Path>): (r: Expansion)
    requires Resolved(files) && p in files
    ensures seen + [p] <= r.seen
    decreases Unseen(files, seen + [p]), |files[p]| + 1
  {
    Segments(files, files[p], isRoot, seen + [p])
  }

  function Segments(files: Files, segs: seq<Segment>, isRoot: bool, seen: seq<Path>): (r: Expansion)
    requires Resolved(files) && ResolvedIn(files, segs)
    ensures seen <= r.seen
    decreases Unseen(files, seen), |segs|
  {
    if segs == [] then Expansion([], seen)
    else
      match segs[0]
      case Text(t) =>
        var r := Segments(files, segs[1..], isRoot, seen);
        Expansion([Plain(t)] + r.pieces, r.seen)
      case PragmaOnce(t) =>
        var r := Segments(files, segs[1..], isRoot, seen);
        Expansion((if isRoot then [Plain(t)] else []) + r.pieces, r.seen)
      case Include(d, q) =>
        if q in seen then
          var r := Segments(files, segs[1..], isRoot, seen);
          Expansion([Comment(d, q)] + r.pieces, r.seen)
        else
          assert Unseen(files, seen + [q]) < Unseen(files, seen) by {
            assert q in Unseen(files, seen) && q !in Unseen(files, seen + [q]);
          }
          var u := Unit(files, q, false, seen);
          assert Unseen(files, u.seen) <= Unseen(files, seen + [q]);
          var r := Segments(files, segs[1..], isRoot, u.seen);
          Expansion([Spliced(d, q, u.pieces)] + r.pieces, r.seen)
  }

  // ---------------------------------------------------------------- spelled and spliced

  lemma {:induction false} UnitSpells(files: Files, p: Path, isRoot: bool, seen: seq<Path>)
    requires Resolved(files) && p in files
    ensures Spells(files, Unit(files, p, isRoot, seen).pieces, files[p], isRoot)
    decreases Unseen(files, seen + [p]), |files[p]| + 1
  {
    SegmentsSpell(files, files[p], isRoot, seen + [p]);
  }

  lemma {:induction false} SegmentsSpell(files: Files, segs: seq<Segment>, isRoot: bool, seen: seq<Path>)
    requires Resolved(files) && ResolvedIn(files, segs)
    ensures Spells(files, Segments(files, segs, isRoot, seen).pieces, segs, isRoot)
    decreases Unseen(files, seen), |segs|
  {
    if segs != [] {
      var rest := segs[1..];
      var seen' := seen;
      if segs[0].Include? && segs[0].path !in seen {
        var q := segs[0].path;
        SeenGrows(files, seen, q);
        UnitSpells(files, q, false, seen);
        seen' := Unit(files, q, false, seen).seen;
      }
      SegmentsSpell(files, rest, isRoot, seen');
      var r := Segments(files, rest, isRoot, seen').pieces;
      var all := Segments(files, segs, isRoot, seen).pieces;
      assert all == r || (all != [] && all[1..] == r);
      if segs[0].PragmaOnce? && !isRoot { assert all == r; }
    }
  }

  lemma SeenGrows(files: Files, seen: seq<Path>, q: Path)
    requires Resolved(files) && q in files && q !in seen
    ensures Unseen(files, seen + [q]) < Unseen(files, seen)
    ensures Unseen(files, Unit(files, q, false, seen).seen) < Unseen(files, seen)
  {
    assert q in Unseen(files, seen) && q !in Unseen(files, seen + [q]);
    assert seen + [q] <= Unit(files, q, false, seen).seen;
  }

  lemma PathsOfConcat(a: seq<(Path, bool)>, b: seq<(Path, bool)>)
    ensures PathsOf(a + b) == PathsOf(a) + PathsOf(b)
  {
    forall i | 0 <= i < |a| ensures a[i].0 in PathsOf(a + b) { assert (a + b)[i] == a[i]; }
    forall i | 0 <= i < |b| ensures b[i].0 in PathsOf(a + b) { assert (a + b)[|a| + i] == b[i]; }
  }

  /** First-encounter splicing of two stretches, one after the other. */
  lemma SplicedConcat(a: seq<(Path, bool)>, b: seq<(Path, bool)>, before: set<Path>)
    ensures SplicedAtFirst(a + b, before) <==> SplicedAtFirst(a, before) && SplicedAtFirst(b, before + PathsOf(a))
  {
    var c := a + b;
    forall i | 0 <= i < |a| ensures c[i] == a[i] && c[..i] == a[..i] {
    }
    forall i | 0 <= i < |b|
      ensures c[|a| + i] == b[i] && before + PathsOf(c[..|a| + i]) == (before + PathsOf(a)) + PathsOf(b[..i])
    {
      assert c[..|a| + i] == a + b[..i];
      PathsOfConcat(a, b[..i]);
    }
    if SplicedAtFirst(c, before) {
      forall i | 0 <= i < |b| ensures b[i].1 <==> b[i].0 !in (before + PathsOf(a)) + PathsOf(b[..i]) {
        assert c[|a| + i].1 <==> c[|a| + i].0 !in before + PathsOf(c[..|a| + i]);
      }
    }
    if SplicedAtFirst(a, before) && SplicedAtFirst(b, before + PathsOf(a)) {
      forall i | 0 <= i < |c| ensures c[i].1 <==> c[i].0 !in before + PathsOf(c[..i]) {
        if i >= |a| { assert c[|a| + (i - |a|)] == b[i - |a|]; }
      }
    }
  }

  /** The files spliced in, in order. */
  function SplicedPaths(enc: seq<(Path, bool)>): seq<Path> {
    if enc == [] then [] else (if enc[0].1 then [enc[0].0] else []) + SplicedPaths(enc[1..])
  }

  lemma {:induction false} SplicedPathsConcat(a: seq<(Path, bool)>, b: seq<(Path, bool)>)
    ensures SplicedPaths(a + b) == SplicedPaths(a) + SplicedPaths(b)
  {
    if a == [] {
      assert a + b == b;
    } else {
      SplicedPathsConcat(a[1..], b);
      assert (a + b)[1..] == a[1..] + b && (a + b)[0] == a[0];
      Regroup(if a[0].1 then [a[0].0] else [], SplicedPaths(a[1..]), SplicedPaths(b));
    }
  }

  /** What an expansion that started with `seen` has done. */
  ghost predicate WellSpliced(r: Expansion, seen: seq<Path>) {
    var enc := Encounters(r.pieces);
    && SplicedAtFirst(enc, SetOf(seen))
    && r.seen == seen + SplicedPaths(enc)
    && SetOf(r.seen) == SetOf(seen) + PathsOf(enc)
  }

  lemma NothingSpliced(seen: seq<Path>)
    ensures WellSpliced(Expansion([], seen), seen)
  {
    assert seen + [] == seen;
  }

  lemma EncountersCons(p: Piece, ps: seq<Piece>)
    ensures Encounters([p] + ps) == EncountersIn(p) + Encounters(ps)
  {
    assert ([p] + ps)[1..] == ps;
  }

  /** Putting one more piece in front of a well-spliced expansion. */
  lemma SpliceFront(p: Piece, seen: seq<Path>, mid: seq<Path>, r: Expansion)
    requires WellSpliced(Expansion([p], mid), seen) && WellSpliced(r, mid)
    ensures WellSpliced(Expansion([p] + r.pieces, r.seen), seen)
  {
    hide SplicedAtFirst, SetOf, PathsOf, SplicedPaths, Encounters, EncountersIn;
    var a, b := EncountersIn(p), Encounters(r.pieces);
    EncountersOfOne(p);
    EncountersCons(p, r.pieces);
    SplicedConcat(a, b, SetOf(seen));
    SplicedPathsConcat(a, b);
    PathsOfConcat(a, b);
    Regroup(seen, SplicedPaths(a), SplicedPaths(b));
  }

  lemma EncountersOfOne(p: Piece)
    ensures Encounters([p]) == EncountersIn(p)
  {
    EncountersCons(p, []);
    assert [p] + [] == [p];
    assert EncountersIn(p) + [] == EncountersIn(p);
  }

  lemma PlainPiece(t: string, seen: seq<Path>)
    ensures WellSpliced(Expansion([Plain(t)], seen), seen)
  {
    EncountersOfOne(Plain(t));
    NothingSpliced(seen);
  }

  lemma OneEncounter(q: Path, spliced: bool, before: set<Path>)
    ensures SplicedAtFirst([(q, spliced)], before) <==> (spliced <==> q !in before)
    ensures PathsOf([(q, spliced)]) == {q}
    ensures SplicedPaths([(q, spliced)]) == if spliced then [q] else []
  {
    var enc := [(q, spliced)];
    assert enc[..0] == [] && before + PathsOf([]) == before;
    assert enc[0].0 in PathsOf(enc);
    assert enc[1..] == [];
    if spliced <==> q !in before {
      forall i | 0 <= i < |enc| ensures enc[i].1 <==> enc[i].0 !in before + PathsOf(enc[..i]) {
      }
    }
    if SplicedAtFirst(enc, before) {
      assert enc[0].1 <==> enc[0].0 !in before + PathsOf(enc[..0]);
    }
  }

  lemma CommentPiece(d: string, q: Path, seen: seq<Path>)
    requires q in seen
    ensures WellSpliced(Expansion([Comment(d, q)], seen), seen)
  {
    EncountersOfOne(Comment(d, q));
    OneEncounter(q, false, SetOf(seen));
    assert seen + [] == seen;
  }

  lemma SplicedPiece(d: string, q: Path, seen: seq<Path>, u: Expansion)
    requires q !in seen && WellSpliced(u, seen + [q])
    ensures WellSpliced(Expansion([Spliced(d, q, u.pieces)], u.seen), seen)
  {
    var p, enc := Spliced(d, q, u.pieces), Encounters(u.pieces);
    EncountersOfOne(p);
    OneEncounter(q, true, SetOf(seen));
    assert SetOf(seen + [q]) == SetOf(seen) + {q};
    SplicedConcat([(q, true)], enc, SetOf(seen));
    SplicedPathsConcat([(q, true)], enc);
    PathsOfConcat([(q, true)], enc);
    Regroup(seen, [q], SplicedPaths(enc));
  }

  /**
   Within a unit, each file is spliced in at its first depth-first encounter and nowhere
   else; the list of included files grows by exactly those files, in that order.
   */
  lemma {:induction false} UnitSplices(files: Files, p: Path, isRoot: bool, seen: seq<Path>)
    requires Resolved(files) && p in files
    ensures WellSpliced(Unit(files, p, isRoot, seen), seen + [p])
    decreases Unseen(files, seen + [p]), |files[p]| + 1
  {
    hide WellSpliced;
    SegmentsSplice(files, files[p], isRoot, seen + [p]);
  }

  lemma {:induction false} SegmentsSplice(files: Files, segs: seq<Segment>, isRoot: bool, seen: seq<Path>)
    requires Resolved(files) && ResolvedIn(files, segs)
    ensures WellSpliced(Segments(files, segs, isRoot, seen), seen)
    decreases Unseen(files, seen), |segs|
  {
    hide WellSpliced;
    if segs == [] {
      NothingSpliced(seen);
    } else {
      match segs[0]
      case Text(t) =>
        SegmentsSplice(files, segs[1..], isRoot, seen);
        PlainPiece(t, seen);
        SpliceFront(Plain(t), seen, seen, Segments(files, segs[1..], isRoot, seen));
      case PragmaOnce(t) =>
        var r := Segments(files, segs[1..], isRoot, seen);
        SegmentsSplice(files, segs[1..], isRoot, seen);
        PlainPiece(t, seen);
        SpliceFront(Plain(t), seen, seen, r);
        assert [] + r.pieces == r.pieces;
      case Include(d, q) =>
        if q in seen {
          SegmentsSplice(files, segs[1..], isRoot, seen);
          CommentPiece(d, q, seen);
          SpliceFront(Comment(d, q), seen, seen, Segments(files, segs[1..], isRoot, seen));
        } else {
          SeenGrows(files, seen, q);
          var u := Unit(files, q, false, seen);
          UnitSplices(files, q, false, seen);
          SplicedPiece(d, q, seen, u);
          SegmentsSplice(files, segs[1..], isRoot, u.seen);
          SpliceFront(Spliced(d, q, u.pieces), seen, u.seen, Segments(files, segs[1..], isRoot, u.seen));
        }
    }
  }

  /** No file is spliced in twice, and none that was included before. */
  lemma SplicedAtMostOnce(enc: seq<(Path, bool)>, before: set<Path>, i: nat, j: nat)
    requires SplicedAtFirst(enc, before) && i < j < |enc| && enc[i].1 && enc[j].1
    ensures enc[i].0 != enc[j].0 && enc[i].0 !in before && enc[j].0 !in before
  {
    assert enc[i].1 <==> enc[i].0 !in before + PathsOf(enc[..i]);
    assert enc[j].1 <==> enc[j].0 !in before + PathsOf(enc[..j]);
    assert enc[..j][i].0 in PathsOf(enc[..j]);
  }

  /**
   The two properties determine the output: whatever spells the segments and splices each
   file at its first encounter is what the amalgamator produces.
   */
  lemma {:induction false} OutputIsUnique(files: Files, ps: seq<Piece>, segs: seq<Segment>, isRoot: bool, seen: seq<Path>)
    requires Resolved(files) && ResolvedIn(files, segs)
    requires Spells(files, ps, segs, isRoot) && SplicedAtFirst(Encounters(ps), SetOf(seen))
    ensures ps == Segments(files, segs, isRoot, seen).pieces
    decreases ps, |segs|
  {
    if segs == [] {
    } else if segs[0].PragmaOnce? && !isRoot {
      OutputIsUnique(files, ps, segs[1..], isRoot, seen);
      assert [] + ps == ps;
    } else {
      var p, rest := ps[0], ps[1..];
      assert ps == [p] + rest;
      EncountersCons(p, rest);
      SplicedConcat(EncountersIn(p), Encounters(rest), SetOf(seen));
      var seen' := seen;
      if p.Plain? {
        assert SetOf(seen) + PathsOf([]) == SetOf(seen);
      } else {
        var q := p.path;
        OneEncounter(q, p.Spliced?, SetOf(seen));
        if p.Spliced? {
          SplicedConcat([(q, true)], Encounters(p.body), SetOf(seen));
          assert SetOf(seen + [q]) == SetOf(seen) + {q};
          OutputIsUnique(files, p.body, files[q], false, seen + [q]);
          SeenGrows(files, seen, q);
          UnitSplices(files, q, false, seen);
          PathsOfConcat([(q, true)], Encounters(p.body));
          seen' := Unit(files, q, false, seen).seen;
          assert SetOf(seen') == SetOf(seen) + PathsOf(EncountersIn(p));
        } else {
          assert SetOf(seen) + PathsOf(EncountersIn(p)) == SetOf(seen);
        }
      }
      OutputIsUnique(files, rest, segs[1..], isRoot, seen');
    }
  }

  // ---------------------------------------------------------------- the text, piece by piece

  /** The texts and comment lines of an output in the order they are printed, without their nesting. */
  function Leaves(ps: seq<Piece>): seq<string> {
    if ps == [] then [] else LeavesIn(ps[0]) + Leaves(ps[1..])
  }

  function LeavesIn(p: Piece): seq<string> {
    match p
    case Plain(t) => [t]
    case Comment(d, _) => ["// " + d + "\n"]
    case Spliced(d, _, body) => ["// " + d + "\n"] + Leaves(body)
  }

  function Joined(ts: seq<string>): string {
    if ts == [] then "" else ts[0] + Joined(ts[1..])
  }

  lemma {:induction false} JoinedConcat(a: seq<string>, b: seq<string>)
    ensures Joined(a + b) == Joined(a) + Joined(b)
  {
    if a == [] {
      assert a + b == b;
    } else {
      JoinedConcat(a[1..], b);
      assert (a + b)[1..] == a[1..] + b && (a + b)[0] == a[0];
      Regroup(a[0], Joined(a[1..]), Joined(b));
    }
  }

  lemma JoinedOne(t: string)
    ensures Joined([t]) == t
  {
    assert [t][1..] == [] && t + "" == t;
  }

  /** The output is its texts and comment lines one behind the other. */
  lemma {:induction false} FlattenJoinsLeaves(ps: seq<Piece>)
    ensures Flatten(ps) == Joined(Leaves(ps))
    decreases ps
  {
    if ps != [] {
      PieceJoinsLeaves(ps[0]);
      FlattenJoinsLeaves(ps[1..]);
      JoinedConcat(LeavesIn(ps[0]), Leaves(ps[1..]));
    }
  }

  lemma {:induction false} PieceJoinsLeaves(p: Piece)
    ensures FlattenPiece(p) == Joined(LeavesIn(p))
    decreases p
  {
    match p
    case Plain(t) => JoinedOne(t);
    case Comment(d, _) => JoinedOne("// " + d + "\n");
    case Spliced(d, _, body) =>
      JoinedOne("// " + d + "\n");
      FlattenJoinsLeaves(body);
      JoinedConcat(["// " + d + "\n"], Leaves(body));
  }

  // ---------------------------------------------------------------- the directives in the text

  /** Where in the text each directive met stands, in the order of `Encounters`. */
  function Places(ps: seq<Piece>, at: nat): seq<(nat, string)> {
    if ps == [] then [] else PlacesIn(ps[0], at) + Places(ps[1..], at + |FlattenPiece(ps[0])|)
  }

  function PlacesIn(p: Piece, at: nat): seq<(nat, string)> {
    match p
    case Plain(_) => []
    case Comment(d, _) => [(at + 3, d)]
    case Spliced(d, _, body) => [(at + 3, d)] + Places(body, at + |d| + 4)
  }

  lemma {:induction false} PlaceForEachEncounter(ps: seq<Piece>, at: nat)
    ensures |Places(ps, at)| == |Encounters(ps)|
    decreases ps
  {
    if ps != [] {
      PlaceForEachEncounter(ps[1..], at + |FlattenPiece(ps[0])|);
      if ps[0].Spliced? { PlaceForEachEncounter(ps[0].body, at + |ps[0].directive| + 4); }
    }
  }

  /** At `o` stands a directive behind `// ` and before a newline. */
  predicate CommentedAt(text: string, o: nat, d: string) {
    && 3 <= o && o + |d| < |text|
    && text[o - 3] == '/' && text[o - 2] == '/' && text[o - 1] == ' '
    && text[o..o + |d|] == d
    && text[o + |d|] == '\n'
  }

  ghost predicate AllCommented(text: string, places: seq<(nat, string)>) {
    forall i | 0 <= i < |places| :: CommentedAt(text, places[i].0, places[i].1)
  }

  lemma CommentedInLonger(before: string, text: string, o: nat, d: string, after: string)
    requires CommentedAt(text, o, d)
    ensures CommentedAt((before + text) + after, |before| + o, d)
  {
    var all := (before + text) + after;
    assert forall i | 0 <= i < |text| :: all[|before| + i] == text[i];
    assert all[|before| + o..|before| + o + |d|] == text[o..o + |d|];
  }

  lemma OneCommented(d: string)
    ensures CommentedAt(CommentLine(d), 3, d) && |CommentLine(d)| == |d| + 4
  {
    var t := CommentLine(d);
    assert t == "// " + d + "\n";
    assert t[3..3 + |d|] == d;
  }

  /** Every directive met is in the output, behind `// ` and before a newline, at the place stated. */
  lemma {:induction false} DirectivesAreCommented(ps: seq<Piece>, before: string, after: string)
    ensures AllCommented((before + Flatten(ps)) + after, Places(ps, |before|))
    decreases ps
  {
    if ps != [] {
      var p, rest := ps[0], ps[1..];
      var mine := FlattenPiece(p);
      PieceIsCommented(p, before, Flatten(rest) + after);
      DirectivesAreCommented(rest, before + mine, after);
      Regroup(before, mine, Flatten(rest));
      Regroup(before + mine, Flatten(rest), after);
      JoinCommented((before + Flatten(ps)) + after, PlacesIn(p, |before|), Places(rest, |before| + |mine|));
    }
  }

  lemma JoinCommented(text: string, a: seq<(nat, string)>, b: seq<(nat, string)>)
    requires AllCommented(text, a) && AllCommented(text, b)
    ensures AllCommented(text, a + b)
  {
    hide CommentedAt;
  }

  lemma {:induction false} PieceIsCommented(p: Piece, before: string, after: string)
    ensures AllCommented((before + FlattenPiece(p)) + after, PlacesIn(p, |before|))
    decreases p
  {
    if !p.Plain? {
      var d, line := p.directive, CommentLine(p.directive);
      OneCommented(d);
      if p.Comment? {
        CommentedInLonger(before, line, 3, d, after);
      } else {
        var body := Flatten(p.body);
        CommentedInLonger(before, line, 3, d, body + after);
        Regroup(before + line, body, after);
        Regroup(before, line, body);
        DirectivesAreCommented(p.body, before + line, after);
        JoinCommented((before + FlattenPiece(p)) + after, [(|before| + 3, d)], Places(p.body, |before| + |d| + 4));
      }
    }
  }

  /**
   So a directive without a newline in it is commented out: `//` stands before it on its line.
   One that a newline breaks is not; only its first line is.
   */
  lemma CommentedOutExactlyWhen(text: string, o: nat, d: string)
    requires CommentedAt(text, o, d)
    ensures (forall i | o - 3 <= i < o + |d| :: text[i] != '\n') <==> '\n' !in d
  {
    forall i | o <= i < o + |d| ensures text[i] == d[i - o] {
      assert text[o..o + |d|][i - o] == text[i];
    }
    if '\n' in d {
      var i :| 0 <= i < |d| && d[i] == '\n';
      assert text[o + i] == '\n';
    }
  }

  // ---------------------------------------------------------------- which files are reached

  function Includes(segs: seq<Segment>): set<Path> {
    set i | 0 <= i < |segs| && segs[i].Include? :: segs[i].path
  }

  /** A trail of files, each including the next. */
  ghost predicate Trail(files: Files, trail: seq<Path>) {
    && trail != []
    && (|trail| > 1 ==>
          && Trail(files, trail[..|trail| - 1])
          && trail[|trail| - 2] in files
          && trail[|trail| - 1] in Includes(files[trail[|trail| - 2]]))
  }

  ghost predicate Reachable(files: Files, sources: seq<Path>, p: Path) {
    exists trail :: Trail(files, trail) && trail[0] in sources && trail[|trail| - 1] == p
  }

  ghost function ReachableFrom(files: Files, sources: seq<Path>): set<Path> {
    set p | p in files.Keys + SetOf(sources) && Reachable(files, sources, p)
  }

  /** Every file in `added` has all it includes in `all`. */
  ghost predicate IncludesWithin(files: Files, added: set<Path>, all: set<Path>) {
    forall p | p in added && p in files :: Includes(files[p]) <= all
  }

  lemma ReachableIsClosed(files: Files, sources: seq<Path>)
    requires Resolved(files)
    ensures SetOf(sources) <= ReachableFrom(files, sources)
    ensures IncludesWithin(files, ReachableFrom(files, sources), ReachableFrom(files, sources))
  {
    forall p | p in sources ensures Reachable(files, sources, p) {
      assert Trail(files, [p]) && [p][0] in sources;
    }
    var all := ReachableFrom(files, sources);
    forall p, q | p in all && p in files && q in Includes(files[p]) ensures q in all {
      var trail :| Trail(files, trail) && trail[0] in sources && trail[|trail| - 1] == p;
      var longer := trail + [q];
      assert longer[..|longer| - 1] == trail;
      assert Trail(files, longer) && longer[0] in sources && longer[|longer| - 1] == q;
      assert ResolvedIn(files, files[p]);
    }
  }

  lemma {:induction false} TrailStaysInside(files: Files, trail: seq<Path>, all: set<Path>)
    requires Trail(files, trail) && trail[0] in all && IncludesWithin(files, all, all)
    ensures trail[|trail| - 1] in all
  {
    if |trail| > 1 {
      TrailStaysInside(files, trail[..|trail| - 1], all);
    }
  }

  lemma IncludesFront(segs: seq<Segment>)
    requires segs != []
    ensures Includes(segs) == (if segs[0].Include? then {segs[0].path} else {}) + Includes(segs[1..])
  {
    forall i | 0 <= i < |segs| && segs[i].Include?
      ensures segs[i].path in (if segs[0].Include? then {segs[0].path} else {}) + Includes(segs[1..])
    {
      if i > 0 { assert segs[1..][i - 1] == segs[i]; }
    }
    forall i | 0 <= i < |segs[1..]| && segs[1..][i].Include? ensures segs[1..][i].path in Includes(segs) {
      assert segs[i + 1] == segs[1..][i];
    }
  }

  /** Nothing outside a closed set is ever added, and nothing that was missing is left unfollowed. */
  ghost predicate Follows(files: Files, seen: seq<Path>, after: seq<Path>, closed: set<Path>) {
    && SetOf(seen) <= SetOf(after) <= SetOf(seen) + closed
    && IncludesWithin(files, SetOf(after) - SetOf(seen), SetOf(after))
  }

  lemma {:induction false} UnitFollows(files: Files, p: Path, isRoot: bool, seen: seq<Path>, closed: set<Path>)
    requires Resolved(files) && p in files
    requires p in closed && IncludesWithin(files, closed, closed)
    ensures Follows(files, seen, Unit(files, p, isRoot, seen).seen, closed)
    ensures Includes(files[p]) <= SetOf(Unit(files, p, isRoot, seen).seen)
    decreases Unseen(files, seen + [p]), |files[p]| + 1
  {
    SegmentsFollow(files, files[p], isRoot, seen + [p], closed);
    assert SetOf(seen + [p]) == SetOf(seen) + {p};
  }

  lemma {:induction false} SegmentsFollow(
    files: Files, segs: seq<Segment>, isRoot: bool, seen: seq<Path>, closed: set<Path>)
    requires Resolved(files) && ResolvedIn(files, segs)
    requires Includes(segs) <= closed && IncludesWithin(files, closed, closed)
    ensures Follows(files, seen, Segments(files, segs, isRoot, seen).seen, closed)
    ensures Includes(segs) <= SetOf(Segments(files, segs, isRoot, seen).seen)
    decreases Unseen(files, seen), |segs|
  {
    if segs != [] {
      IncludesFront(segs);
      if segs[0].Include? && segs[0].path !in seen {
        var q := segs[0].path;
        SeenGrows(files, seen, q);
        UnitFollows(files, q, false, seen, closed);
        var mid := Unit(files, q, false, seen).seen;
        assert q in SetOf(mid) by { assert (seen + [q])[|seen|] == q == mid[|seen|]; }
        SegmentsFollow(files, segs[1..], isRoot, mid, closed);
      } else {
        SegmentsFollow(files, segs[1..], isRoot, seen, closed);
      }
    }
  }

  // ---------------------------------------------------------------- the whole run

  /** All pieces and the included files, or the missing source file that stopped the run. */
  datatype Outcome = Done(all: Expansion) | NotFound(path: Path, included: seq<Path>)

  function AllUnits(files: Files, sources: seq<Path>, seen: seq<Path>): Outcome
    requires Resolved(files)
  {
    if sources == [] then Done(Expansion([], seen))
    else if sources[0] !in files then NotFound(sources[0], seen + [sources[0]])
    else
      var u := Unit(files, sources[0], true, seen);
      match AllUnits(files, sources[1..], u.seen)
      case Done(rest) => Done(Expansion(u.pieces + rest.pieces, rest.seen))
      case NotFound(p, included) => NotFound(p, included)
  }

  /** The run fails exactly when a source is missing, and names the first such one. */
  lemma {:induction false} FailsExactlyWhenSourceMissing(files: Files, sources: seq<Path>, seen: seq<Path>)
    requires Resolved(files)
    ensures AllUnits(files, sources, seen).Done? <==> forall i | 0 <= i < |sources| :: sources[i] in files
    ensures var r := AllUnits(files, sources, seen);
            r.NotFound? ==> exists i ::
                && 0 <= i < |sources| && sources[i] == r.path && r.path !in files
                && forall j | 0 <= j < i :: sources[j] in files
  {
    if sources != [] {
      if sources[0] !in files {
        assert AllUnits(files, sources, seen).path == sources[0];
      } else {
        var u := Unit(files, sources[0], true, seen);
        FailsExactlyWhenSourceMissing(files, sources[1..], u.seen);
        var r := AllUnits(files, sources[1..], u.seen);
        if r.NotFound? {
          var i :| 0 <= i < |sources[1..]| && sources[1..][i] == r.path && r.path !in files
                   && forall j | 0 <= j < i :: sources[1..][j] in files;
          assert sources[i + 1] == r.path;
          forall j | 0 <= j < i + 1 ensures sources[j] in files {
            if j > 0 { assert sources[1..][j - 1] == sources[j]; }
          }
        } else {
          forall i | 0 <= i < |sources| ensures sources[i] in files {
            if i > 0 { assert sources[1..][i - 1] == sources[i]; }
          }
        }
      }
    }
  }

  lemma {:induction false} RunFollows(files: Files, sources: seq<Path>, seen: seq<Path>, closed: set<Path>)
    requires Resolved(files) && AllUnits(files, sources, seen).Done?
    requires SetOf(sources) <= closed && IncludesWithin(files, closed, closed)
    ensures var after := AllUnits(files, sources, seen).all.seen;
            Follows(files, seen, after, closed) && SetOf(sources) <= SetOf(after)
  {
    if sources != [] {
      var u := Unit(files, sources[0], true, seen);
      assert SetOf(sources) == {sources[0]} + SetOf(sources[1..]) by {
        assert sources == [sources[0]] + sources[1..];
      }
      UnitFollows(files, sources[0], true, seen, closed);
      assert sources[0] in SetOf(u.seen) by { assert (seen + [sources[0]])[|seen|] == u.seen[|seen|]; }
      RunFollows(files, sources[1..], u.seen, closed);
    }
  }

  /**
   When every source exists, the run ends with the included files being, as a set, exactly
   what the sources reach, for any include graph, cyclic or not.
   */
  lemma {:induction false} IncludesExactlyTheReachable(files: Files, sources: seq<Path>)
    requires Resolved(files) && forall i | 0 <= i < |sources| :: sources[i] in files
    ensures AllUnits(files, sources, []).Done?
    ensures SetOf(AllUnits(files, sources, []).all.seen) == ReachableFrom(files, sources)
    ensures forall p :: p in AllUnits(files, sources, []).all.seen <==> Reachable(files, sources, p)
  {
    FailsExactlyWhenSourceMissing(files, sources, []);
    var after := SetOf(AllUnits(files, sources, []).all.seen);
    ReachableIsClosed(files, sources);
    RunFollows(files, sources, [], ReachableFrom(files, sources));
    assert after - SetOf([]) == after;
    forall p | Reachable(files, sources, p) ensures p in after {
      var trail :| Trail(files, trail) && trail[0] in sources && trail[|trail| - 1] == p;
      TrailStaysInside(files, trail, after);
    }
    forall p | p in after ensures Reachable(files, sources, p) {
      assert p in ReachableFrom(files, sources);
    }
  }

  lemma {:induction false} EncountersConcat(a: seq<Piece>, b: seq<Piece>)
    ensures Encounters(a + b) == Encounters(a) + Encounters(b)
  {
    if a == [] {
      assert a + b == b;
    } else {
      EncountersConcat(a[1..], b);
      assert (a + b)[1..] == a[1..] + b && (a + b)[0] == a[0];
    }
  }

  predicate Distinct<T(==)>(s: seq<T>) {
    forall i, j | 0 <= i < j < |s| :: s[i] != s[j]
  }

  lemma {:induction false} SplicedPathsAreNew(enc: seq<(Path, bool)>, before: set<Path>)
    requires SplicedAtFirst(enc, before)
    ensures Distinct(SplicedPaths(enc)) && SetOf(SplicedPaths(enc)) !! before
  {
    if enc != [] {
      var e, rest := enc[0], enc[1..];
      assert enc == [e] + rest;
      SplicedConcat([e], rest, before);
      OneEncounter(e.0, e.1, before);
      SplicedPathsAreNew(rest, before + {e.0});
      assert SplicedPaths(enc) == SplicedPaths([e]) + SplicedPaths(rest);
    }
  }

  /**
   Over the whole run, with however many sources, no file is spliced in through an include
   directive more than once.
   */
  lemma {:induction false} RunSplicesOnce(files: Files, sources: seq<Path>, seen: seq<Path>)
    requires Resolved(files) && AllUnits(files, sources, seen).Done?
    ensures var spliced := SplicedPaths(Encounters(AllUnits(files, sources, seen).all.pieces));
            && Distinct(spliced)
            && SetOf(spliced) !! SetOf(seen)
            && SetOf(AllUnits(files, sources, seen).all.seen) == SetOf(seen) + SetOf(sources) + SetOf(spliced)
  {
    if sources != [] {
      hide SetOf, Distinct, SplicedPaths, SplicedAtFirst, Encounters, PathsOf;
      var p := sources[0];
      var u := Unit(files, p, true, seen);
      var rest := AllUnits(files, sources[1..], u.seen).all;
      UnitSplices(files, p, true, seen);
      var mine := SplicedPaths(Encounters(u.pieces));
      SplicedPathsAreNew(Encounters(u.pieces), SetOf(seen + [p]));
      RunSplicesOnce(files, sources[1..], u.seen);
      var theirs := SplicedPaths(Encounters(rest.pieces));
      EncountersConcat(u.pieces, rest.pieces);
      SplicedPathsConcat(Encounters(u.pieces), Encounters(rest.pieces));
      JoinDistinct(mine, theirs);
      SetOfConcat(seen + [p], mine);
      SetOfConcat(seen, [p]);
      SetOfConcat(mine, theirs);
      SetOfConcat([p], sources[1..]);
      assert sources == [p] + sources[1..];
    }
  }

  lemma SetOfConcat(a: seq<Path>, b: seq<Path>)
    ensures SetOf(a + b) == SetOf(a) + SetOf(b)
  {
  }

  lemma JoinDistinct(a: seq<Path>, b: seq<Path>)
    requires Distinct(a) && Distinct(b) && SetOf(a) !! SetOf(b)
    ensures Distinct(a + b)
  {
    forall i, j | 0 <= i < j < |a + b| ensures (a + b)[i] != (a + b)[j] {
      if i < |a| <= j { assert a[i] in SetOf(a) && b[j - |a|] in SetOf(b); }
    }
  }

  // ---------------------------------------------------------------- sources that others include

  /** One more source at the end of the list. */
  lemma {:induction false} AllUnitsSnoc(files: Files, sources: seq<Path>, p: Path, seen: seq<Path>)
    requires Resolved(files) && p in files && AllUnits(files, sources, seen).Done?
    ensures AllUnits(files, sources + [p], seen).Done?
    ensures AllUnits(files, sources + [p], seen).all.seen ==
            Unit(files, p, true, AllUnits(files, sources, seen).all.seen).seen
  {
    var more := sources + [p];
    if sources == [] {
      assert more[1..] == [];
    } else {
      assert more[0] == sources[0] && more[1..] == sources[1..] + [p];
      AllUnitsSnoc(files, sources[1..], p, Unit(files, sources[0], true, seen).seen);
    }
  }

  /** A unit lists its own path again if it is there already; what it splices in is always new. */
  lemma UnitRepeatsExactlyWhen(files: Files, p: Path, seen: seq<Path>)
    requires Resolved(files) && p in files
    ensures Distinct(Unit(files, p, true, seen).seen) <==> Distinct(seen) && p !in seen
  {
    hide SplicedAtFirst, SplicedPaths, Encounters, PathsOf;
    UnitSplices(files, p, true, seen);
    var enc := Encounters(Unit(files, p, true, seen).pieces);
    SplicedPathsAreNew(enc, SetOf(seen + [p]));
    var all, spliced := Unit(files, p, true, seen).seen, SplicedPaths(enc);
    assert all == (seen + [p]) + spliced;
    hide Distinct, SetOf;
    DistinctParts(seen + [p], spliced);
    DistinctParts(seen, [p]);
    if Distinct(seen + [p]) { JoinDistinct(seen + [p], spliced); }
    DistinctSnoc(seen, p);
  }

  lemma DistinctParts(a: seq<Path>, b: seq<Path>)
    ensures Distinct(a + b) ==> Distinct(a)
  {
    assert forall i | 0 <= i < |a| :: (a + b)[i] == a[i];
  }

  lemma DistinctSnoc(a: seq<Path>, p: Path)
    ensures Distinct(a + [p]) <==> Distinct(a) && p !in a
  {
    var all := a + [p];
    assert all[|a|] == p && forall i | 0 <= i < |a| :: all[i] == a[i];
    if Distinct(all) {
      forall i, j | 0 <= i < j < |a| ensures a[i] != a[j] { assert all[i] != all[j]; }
      forall i | 0 <= i < |a| ensures a[i] != p { assert all[i] != all[|a|]; }
    }
    if Distinct(a) && p !in a {
      forall i, j | 0 <= i < j < |all| ensures all[i] != all[j] { }
    }
  }

  /** A source is expanded even if it was included before. */
  ghost predicate NoneReachesNext(files: Files, sources: seq<Path>) {
    forall k | 0 <= k < |sources| :: !Reachable(files, sources[..k], sources[k])
  }

  /**
   When every source exists, no file is listed, and so none printed, twice exactly when no
   source is reached from the ones before it.
   */
  lemma {:induction false} ListedOnceExactlyWhen(files: Files, sources: seq<Path>)
    requires Resolved(files) && forall i | 0 <= i < |sources| :: sources[i] in files
    ensures AllUnits(files, sources, []).Done?
    ensures Distinct(AllUnits(files, sources, []).all.seen) <==> NoneReachesNext(files, sources)
    decreases |sources|
  {
    if sources != [] {
      var n := |sources| - 1;
      var front, p := sources[..n], sources[n];
      assert sources == front + [p];
      ListedOnceExactlyWhen(files, front);
      IncludesExactlyTheReachable(files, front);
      AllUnitsSnoc(files, front, p, []);
      UnitRepeatsExactlyWhen(files, p, AllUnits(files, front, []).all.seen);
      hide Reachable, AllUnits, Distinct;
      assert forall k | 0 <= k < n :: front[..k] == sources[..k] && front[k] == sources[k];
      if NoneReachesNext(files, sources) {
        forall k | 0 <= k < n ensures !Reachable(files, front[..k], front[k]) {
          assert !Reachable(files, sources[..k], sources[k]);
        }
        assert !Reachable(files, sources[..n], sources[n]);
      }
      if NoneReachesNext(files, front) && !Reachable(files, front, p) {
        forall k | 0 <= k < |sources| ensures !Reachable(files, sources[..k], sources[k]) {
          if k < n { assert !Reachable(files, front[..k], front[k]); }
        }
      }
    }
  }

  // ---------------------------------------------------------------- the program

  lemma {:induction false} FlattenConcat(a: seq<Piece>, b: seq<Piece>)
    ensures Flatten(a + b) == Flatten(a) + Flatten(b)
  {
    if a == [] {
      assert a + b == b;
    } else {
      FlattenConcat(a[1..], b);
      assert (a + b)[1..] == a[1..] + b && (a + b)[0] == a[0];
      Regroup(FlattenPiece(a[0]), Flatten(a[1..]), Flatten(b));
    }
  }

  /** The text of what remains to be expanded. */
  ghost function Rest(files: Files, segs: seq<Segment>, isRoot: bool, seen: seq<Path>): string
    requires Resolved(files) && ResolvedIn(files, segs)
  {
    Flatten(Segments(files, segs, isRoot, seen).pieces)
  }

  /** The text the first segment contributes, with the files included after it. */
  ghost function Step(files: Files, s: Segment, isRoot: bool, seen: seq<Path>): (string, seq<Path>)
    requires Resolved(files) && (s.Include? ==> s.path in files)
  {
    match s
    case Text(t) => (t, seen)
    case PragmaOnce(t) => (if isRoot then t else "", seen)
    case Include(d, q) =>
      if q in seen then (CommentLine(d), seen)
      else
        var u := Unit(files, q, false, seen);
        (CommentLine(d) + Flatten(u.pieces), u.seen)
  }

  lemma RestUnfolds(files: Files, segs: seq<Segment>, isRoot: bool, seen: seq<Path>)
    requires Resolved(files) && ResolvedIn(files, segs) && segs != []
    ensures var (text, mid) := Step(files, segs[0], isRoot, seen);
            && Rest(files, segs, isRoot, seen) == text + Rest(files, segs[1..], isRoot, mid)
            && Segments(files, segs, isRoot, seen).seen == Segments(files, segs[1..], isRoot, mid).seen
  {
    var (text, mid) := Step(files, segs[0], isRoot, seen);
    var all := Segments(files, segs, isRoot, seen).pieces;
    var r := Segments(files, segs[1..], isRoot, mid).pieces;
    if segs[0].PragmaOnce? && !isRoot {
      assert all == [] + r == r;
    } else {
      assert all[1..] == r;
      assert FlattenPiece(all[0]) == text;
    }
  }

  lemma NothingLeft(files: Files, isRoot: bool, seen: seq<Path>)
    requires Resolved(files)
    ensures Rest(files, [], isRoot, seen) == "" && Segments(files, [], isRoot, seen).seen == seen
  {
  }

  class Amalgamator {
    const files: Files
    const sources: seq<Path>
    var includedFiles: seq<Path>

    constructor (files: Files, sources: seq<Path>)
      requires Resolved(files)
      ensures this.files == files && this.sources == sources && includedFiles == []
    {
      this.files, this.sources, includedFiles := files, sources, [];
    }

    /** Building a translation unit: its content, or the path of the file that is not there. */
    method TranslationUnit(path: Path, isRoot: bool) returns (content: Result<string, Path>)
      requires Resolved(files)
      modifies this`includedFiles
      ensures path !in files ==> content == Err(path) && includedFiles == old(includedFiles) + [path]
      ensures path in files ==>
                var u := Unit(files, path, isRoot, old(includedFiles));
                content == Ok(Flatten(u.pieces)) && includedFiles == u.seen
      decreases Unseen(files, includedFiles + [path]), 1
    {
      includedFiles := includedFiles + [path];
      if path !in files {
        return Err(path);
      }
      var text := Process(files[path], isRoot);
      content := Ok(text);
    }

    /** Drop the `#pragma once` directives of a file that is not a source, and expand its includes. */
    method Process(segs: seq<Segment>, isRoot: bool) returns (content: string)
      requires Resolved(files) && ResolvedIn(files, segs)
      modifies this`includedFiles
      ensures content == Rest(files, segs, isRoot, old(includedFiles))
      ensures includedFiles == Segments(files, segs, isRoot, old(includedFiles)).seen
      decreases Unseen(files, includedFiles), 0
    {
      hide Rest, Segments, Flatten, Unseen, CommentLine, Unit, SetOf;
      content := "";
      var i: nat := 0;
      ghost var all := Segments(files, segs, isRoot, includedFiles);
      while i < |segs|
        invariant i <= |segs|
        invariant old(includedFiles) <= includedFiles
        invariant content + Rest(files, segs[i..], isRoot, includedFiles) == Rest(files, segs, isRoot, old(includedFiles))
        invariant Segments(files, segs[i..], isRoot, includedFiles).seen == all.seen
      {
        RestUnfolds(files, segs[i..], isRoot, includedFiles);
        ghost var before := content;
        ghost var step := Step(files, segs[i], isRoot, includedFiles);
        ghost var rest := Rest(files, segs[i + 1..], isRoot, step.1);
        assert segs[i..][1..] == segs[i + 1..];
        match segs[i] {
          case Text(t) =>
            content := content + t;
          case PragmaOnce(t) =>
            if isRoot { content := content + t; }
          case Include(d, q) =>
            content := content + CommentLine(d);
            if q !in includedFiles {
              SeenGrows(files, includedFiles, q);
              UnseenShrinks(files, old(includedFiles), includedFiles);
              var unit := TranslationUnit(q, false);
              Regroup(before, CommentLine(d), unit.value);
              content := content + unit.value;
            }
        }
        assert content == before + step.0;
        Regroup(before, step.0, rest);
        i := i + 1;
      }
      assert segs[i..] == [];
      NothingLeft(files, isRoot, includedFiles);
      assert content + "" == content;
    }

    /** The amalgamation of all sources, or the path of the first one that is not there. */
    method Generate(prologue: string) returns (amalgamation: Result<string, Path>)
      requires Resolved(files)
      modifies this`includedFiles
      ensures match AllUnits(files, sources, old(includedFiles))
              case Done(all) =>
                amalgamation == Ok(prologue + Flatten(all.pieces)) && includedFiles == all.seen
              case NotFound(path, included) =>
                amalgamation == Err(path) && includedFiles == included
    {
      var text := prologue;
      var i: nat := 0;
      ghost var pieces: seq<Piece> := [];
      assert text + "" == text;
      while i < |sources|
        invariant i <= |sources|
        invariant text == prologue + Flatten(pieces)
        invariant match AllUnits(files, sources[i..], includedFiles)
                  case Done(rest) =>
                    AllUnits(files, sources, old(includedFiles)) == Done(Expansion(pieces + rest.pieces, rest.seen))
                  case NotFound(path, included) =>
                    AllUnits(files, sources, old(includedFiles)) == NotFound(path, included)
      {
        assert sources[i..][1..] == sources[i + 1..];
        ghost var u := if sources[i] in files then Unit(files, sources[i], true, includedFiles) else Expansion([], []);
        var unit := TranslationUnit(sources[i], true);
        if unit.Err? {
          return unit;
        }
        text := text + unit.value;
        FlattenConcat(pieces, u.pieces);
        Regroup(prologue, Flatten(pieces), unit.value);
        ghost var rest := AllUnits(files, sources[i + 1..], includedFiles);
        if rest.Done? {
          Regroup(pieces, u.pieces, rest.all.pieces);
        }
        pieces := pieces + u.pieces;
        i := i + 1;
      }
      assert pieces + [] == pieces;
      amalgamation := Ok(text);
    }
  }

  lemma UnseenShrinks(files: Files, seen: seq<Path>, more: seq<Path>)
    requires seen <= more
    ensures Unseen(files, more) <= Unseen(files, seen)
  {
  }
}
