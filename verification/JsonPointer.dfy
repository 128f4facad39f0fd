/**
 JSON pointers: the text form `/a~1b/0`, its reference tokens, and array indices.

 `Render` and `Parse` are each other's inverse. The library escapes and unescapes with
 two whole-string replacement passes; those passes are proved equal to the
 character-by-character forms of section 4 of RFC 6901.
 */
module JsonPointer {
  import opened Wrappers
  import opened Sequences
  import opened JsonValues

  type Pointer = seq<string>

  // ---------------------------------------------------------------- replace_substring

  /** Leftmost, non-overlapping replacement of every `f` in `s` by `t`. */
  function ReplaceAll(s: string, f: string, t: string): string
    requires f != ""
  {
    if |s| < |f| then s
    else if s[..|f|] == f then t + ReplaceAll(s[|f|..], f, t)
    else [s[0]] + ReplaceAll(s[1..], f, t)
  }

  predicate OccursAt(s: string, f: string, q: nat) {
    q + |f| <= |s| && s[q..q + |f|] == f
  }

  /** `std::string::find(f, from)`; None is npos. */
  function Find(s: string, f: string, from: nat): (pos: Option<nat>)
    ensures pos.Some? ==> from <= pos.value && OccursAt(s, f, pos.value)
    ensures forall q: nat :: from <= q && (pos.Some? ==> q < pos.value) ==> !OccursAt(s, f, q)
    decreases |s| - from
  {
    if from + |f| > |s| then None
    else if OccursAt(s, f, from) then Some(from)
    else Find(s, f, from + 1)
  }

  /** Text before the first match is copied as it is. */
  lemma {:induction false} ReplaceAllSkips(s: string, f: string, t: string, from: nat, upto: nat)
    requires f != "" && from <= upto <= |s|
    requires forall q: nat :: from <= q < upto ==> !OccursAt(s, f, q)
    ensures ReplaceAll(s[from..], f, t) == s[from..upto] + ReplaceAll(s[upto..], f, t)
    decreases upto - from
  {
    hide ReplaceAll;
    if from < upto {
      ReplaceAllSkipsOne(s, f, t, from);
      ReplaceAllSkips(s, f, t, from + 1, upto);
      assert [s[from]] + s[from + 1..upto] == s[from..upto];
      Regroup([s[from]], s[from + 1..upto], ReplaceAll(s[upto..], f, t));
    } else {
      assert s[from..upto] == "";
    }
  }

  lemma ReplaceAllSkipsOne(s: string, f: string, t: string, from: nat)
    requires f != "" && from < |s| && !OccursAt(s, f, from)
    ensures ReplaceAll(s[from..], f, t) == [s[from]] + ReplaceAll(s[from + 1..], f, t)
  {
    if from + |f| > |s| {
      assert s[from..] == [s[from]] + s[from + 1..];
    } else {
      assert s[from..][..|f|] == s[from..from + |f|];
      assert s[from..][1..] == s[from + 1..];
    }
  }

  /** `std::string::replace(p, n, t)`. */
  function ReplaceAt(s: string, p: nat, n: nat, t: string): string
    requires p + n <= |s|
  {
    s[..p] + t + s[p + n..]
  }

  /** One turn of the loop below: replacing the next match keeps the final text. */
  lemma ReplaceStep(s: string, f: string, t: string, from: nat, p: nat)
    requires f != "" && from <= |s| && Find(s, f, from) == Some(p)
    ensures var s' := ReplaceAt(s, p, |f|, t);
            && s'[p + |t|..] == s[p + |f|..]
            && s'[..p + |t|] + ReplaceAll(s'[p + |t|..], f, t) == s[..from] + ReplaceAll(s[from..], f, t)
  {
    var head, tail := s[..p], s[p + |f|..];
    var s' := head + t + tail;
    ReplaceAllSkips(s, f, t, from, p);
    assert ReplaceAll(s[p..], f, t) == t + ReplaceAll(tail, f, t) by {
      assert s[p..][..|f|] == f && s[p..][|f|..] == tail;
    }
    assert s'[p + |t|..] == tail && s'[..p + |t|] == head + t;
    assert head == s[..from] + s[from..p];
    RegroupFour(s[..from], s[from..p], t, ReplaceAll(tail, f, t));
  }

  lemma LessIsLeft(s: string, f: string, t: string, from: nat, p: nat)
    requires f != "" && from <= |s| && Find(s, f, from) == Some(p)
    ensures p + |f| <= |s|
    ensures var s' := ReplaceAt(s, p, |f|, t);
            p + |t| <= |s'| && |s'| - (p + |t|) < |s| - from
  {
  }

  lemma ReplaceAllOfNothing(f: string, t: string)
    requires f != ""
    ensures ReplaceAll("", f, t) == ""
  {
  }

  method ReplaceSubstring(s0: string, f: string, t: string) returns (s: string)
    requires f != ""
    ensures s == ReplaceAll(s0, f, t)
  {
    hide ReplaceAll, ReplaceAt, Find;
    s := s0;
    ghost var from: nat := 0;
    assert s[..0] + ReplaceAll(s[0..], f, t) == ReplaceAll(s0, f, t) by { assert s[0..] == s && s[..0] == ""; }
    var pos := Find(s, f, 0);
    while pos.Some?
      invariant from <= |s|
      invariant pos == Find(s, f, from)
      invariant ReplaceAll(s0, f, t) == s[..from] + ReplaceAll(s[from..], f, t)
      decreases |s| - from
    {
      var p := pos.value;
      ReplaceStep(s, f, t, from, p);
      LessIsLeft(s, f, t, from, p);
      s := ReplaceAt(s, p, |f|, t);
      from := p + |t|;
      pos := Find(s, f, p + |t|);
    }
    NothingToReplace(s, f, t, from);
  }

  lemma NothingToReplace(s: string, f: string, t: string, from: nat)
    requires f != "" && from <= |s| && Find(s, f, from).None?
    ensures s[..from] + ReplaceAll(s[from..], f, t) == s
  {
    hide ReplaceAll;
    ReplaceAllSkips(s, f, t, from, |s|);
    ReplaceAllOfNothing(f, t);
    assert s[|s|..] == "";
    assert s[..from] + (s[from..|s|] + "") == s;
  }

  // ---------------------------------------------------------------- escaping

  function EscapeChar(c: char): string {
    if c == '~' then "~0" else if c == '/' then "~1" else [c]
  }

  function Escaped(s: string): string {
    if s == "" then "" else EscapeChar(s[0]) + Escaped(s[1..])
  }

  /** A `~` at index `i` is followed by `0` or `1`. */
  predicate EscapeOkAt(e: string, i: nat)
    requires i < |e|
  {
    e[i] == '~' ==> i + 1 < |e| && (e[i + 1] == '0' || e[i + 1] == '1')
  }

  predicate WellEscaped(e: string) {
    forall i | 0 <= i < |e| :: EscapeOkAt(e, i)
  }

  function Unescaped(e: string): string {
    if e == "" then ""
    else if e[0] == '~' && |e| > 1 then [if e[1] == '0' then '~' else '/'] + Unescaped(e[2..])
    else [e[0]] + Unescaped(e[1..])
  }

  lemma ReplaceAllOfChar(c: char, rest: string, f: char, t: string)
    ensures ReplaceAll([c] + rest, [f], t) == (if c == f then t else [c]) + ReplaceAll(rest, [f], t)
  {
    var s := [c] + rest;
    assert s[..1] == [c] && s[1..] == rest;
  }

  /** Replacing `~` first and `/` second escapes every character exactly once. */
  lemma {:induction false} TwoPassEscape(s: string)
    ensures ReplaceAll(ReplaceAll(s, "~", "~0"), "/", "~1") == Escaped(s)
  {
    hide ReplaceAll;
    if s == "" {
      ReplaceAllOfNothing("~", "~0");
      ReplaceAllOfNothing("/", "~1");
    } else {
      var rest := ReplaceAll(s[1..], "~", "~0");
      TwoPassEscape(s[1..]);
      assert s == [s[0]] + s[1..];
      ReplaceAllOfChar(s[0], s[1..], '~', "~0");
      if s[0] == '~' {
        assert "~0" + rest == ['~'] + (['0'] + rest);
        ReplaceAllOfChar('~', ['0'] + rest, '/', "~1");
        ReplaceAllOfChar('0', rest, '/', "~1");
      } else {
        ReplaceAllOfChar(s[0], rest, '/', "~1");
      }
    }
  }

  /** Replacing `~1` first and `~0` second undoes exactly one escape per `~`. */
  lemma {:induction false} TwoPassUnescape(e: string)
    requires WellEscaped(e)
    ensures ReplaceAll(ReplaceAll(e, "~1", "/"), "~0", "~") == Unescaped(e)
  {
    hide ReplaceAll;
    if e == "" {
      ReplaceAllOfNothing("~1", "/");
      ReplaceAllOfNothing("~0", "~");
    } else if e[0] == '~' {
      assert EscapeOkAt(e, 0);
      WellEscapedRest(e);
      TwoPassUnescape(e[2..]);
      if e[1] == '0' {
        assert e == "~0" + e[2..];
        PassesOverEscapedTilde(e[2..]);
      } else {
        assert e == "~1" + e[2..];
        PassesOverEscapedSlash(e[2..]);
      }
    } else {
      WellEscapedRest(e);
      TwoPassUnescape(e[1..]);
      assert e == [e[0]] + e[1..];
      ReplaceAllCopiesHead(e[0], e[1..], "~1", "/");
      ReplaceAllCopiesHead(e[0], ReplaceAll(e[1..], "~1", "/"), "~0", "~");
    }
  }

  lemma PassesOverEscapedTilde(rest: string)
    ensures ReplaceAll(ReplaceAll("~0" + rest, "~1", "/"), "~0", "~") ==
            ['~'] + ReplaceAll(ReplaceAll(rest, "~1", "/"), "~0", "~")
  {
    hide ReplaceAll;
    var e, after := "~0" + rest, ReplaceAll(rest, "~1", "/");
    assert e[0..] == e && e[1..] == ['0'] + rest && e[0..2] == "~0";
    ReplaceAllSkipsOne(e, "~1", "/", 0);
    ReplaceAllCopiesHead('0', rest, "~1", "/");
    assert ['~'] + (['0'] + after) == "~0" + after;
    ReplaceAllMatches(after, "~0", "~");
  }

  lemma PassesOverEscapedSlash(rest: string)
    ensures ReplaceAll(ReplaceAll("~1" + rest, "~1", "/"), "~0", "~") ==
            ['/'] + ReplaceAll(ReplaceAll(rest, "~1", "/"), "~0", "~")
  {
    hide ReplaceAll;
    ReplaceAllMatches(rest, "~1", "/");
    ReplaceAllCopiesHead('/', ReplaceAll(rest, "~1", "/"), "~0", "~");
  }

  lemma ReplaceAllMatches(rest: string, f: string, t: string)
    requires f != ""
    ensures ReplaceAll(f + rest, f, t) == t + ReplaceAll(rest, f, t)
  {
    assert (f + rest)[..|f|] == f && (f + rest)[|f|..] == rest;
  }

  lemma WellEscapedRest(e: string)
    requires WellEscaped(e) && e != ""
    ensures e[0] == '~' ==> |e| >= 2 && WellEscaped(e[2..])
    ensures e[0] != '~' ==> WellEscaped(e[1..])
  {
    assert EscapeOkAt(e, 0);
    var n := if e[0] == '~' then 2 else 1;
    forall i | 0 <= i < |e[n..]| ensures EscapeOkAt(e[n..], i) {
      assert EscapeOkAt(e, i + n);
    }
  }

  lemma WellEscapedConcat(a: string, b: string)
    requires WellEscaped(a) && WellEscaped(b)
    ensures WellEscaped(a + b)
  {
    forall k | 0 <= k < |a + b| ensures EscapeOkAt(a + b, k) {
      if k < |a| { assert EscapeOkAt(a, k); } else { assert EscapeOkAt(b, k - |a|); }
    }
  }

  lemma ReplaceAllCopiesHead(c: char, rest: string, f: string, t: string)
    requires f != "" && c != f[0]
    ensures ReplaceAll([c] + rest, f, t) == [c] + ReplaceAll(rest, f, t)
  {
    var s := [c] + rest;
    if |s| >= |f| {
      assert s[..|f|][0] == c;
      assert s[1..] == rest;
    } else {
      assert s == [c] + rest;
    }
  }

  method Escape(s: string) returns (e: string)
    ensures e == Escaped(s)
  {
    e := ReplaceSubstring(s, "~", "~0");
    e := ReplaceSubstring(e, "/", "~1");
    TwoPassEscape(s);
  }

  method Unescape(e: string) returns (s: string)
    requires WellEscaped(e)
    ensures s == Unescaped(e)
  {
    s := ReplaceSubstring(e, "~1", "/");
    s := ReplaceSubstring(s, "~0", "~");
    TwoPassUnescape(e);
  }

  /** Escaping produces slash-free, well-escaped text that unescapes to the original. */
  lemma {:induction false} UnescapeUndoesEscape(s: string)
    ensures WellEscaped(Escaped(s)) && '/' !in Escaped(s)
    ensures Unescaped(Escaped(s)) == s
  {
    if s != "" {
      UnescapeUndoesEscape(s[1..]);
      var first, rest := EscapeChar(s[0]), Escaped(s[1..]);
      WellEscapedConcat(first, rest);
      assert (first + rest)[|first|..] == rest;
    }
  }

  /** On well-escaped, slash-free text escaping undoes unescaping: no two texts share a token. */
  lemma {:induction false} EscapeUndoesUnescape(e: string)
    requires WellEscaped(e) && '/' !in e
    ensures Escaped(Unescaped(e)) == e
  {
    if e != "" {
      WellEscapedRest(e);
      assert e[0] in e;
      if e[0] == '~' {
        assert EscapeOkAt(e, 0);
        hide WellEscaped, Escaped;
        var c := if e[1] == '0' then '~' else '/';
        EscapeUndoesUnescape(e[2..]);
        EscapedCons(c, Unescaped(e[2..]));
        assert e == e[..2] + e[2..] && e[..2] == EscapeChar(c);
      } else {
        hide WellEscaped, Escaped;
        EscapeUndoesUnescape(e[1..]);
        EscapedCons(e[0], Unescaped(e[1..]));
        assert e == [e[0]] + e[1..];
      }
    }
  }

  lemma EscapedCons(c: char, s: string)
    ensures Escaped([c] + s) == EscapeChar(c) + Escaped(s)
  {
    assert ([c] + s)[1..] == s;
  }

  // ---------------------------------------------------------------- text <-> tokens

  /** The text of a pointer: a slash and the escaped token, for each token. */
  function Render(p: Pointer): string {
    if p == [] then "" else "/" + (Escaped(p[0]) + Render(p[1..]))
  }

  /** Index of the first slash, or the length when there is none. */
  function SlashIndex(s: string): (i: nat)
    ensures i <= |s| && forall j | 0 <= j < i :: s[j] != '/'
    ensures i < |s| ==> s[i] == '/'
  {
    if s == "" || s[0] == '/' then 0
    else 1 + SlashIndex(s[1..])
  }

  /** Tokens of the text after a slash. */
  function ParseSegments(s: string): Result<Pointer, Error>
    decreases |s|
  {
    var i := SlashIndex(s);
    if !WellEscaped(s[..i]) then Err(ParseError(108))
    else if i == |s| then Ok([Unescaped(s)])
    else
      var rest :- ParseSegments(s[i + 1..]);
      Ok([Unescaped(s[..i])] + rest)
  }

  function Parse(s: string): Result<Pointer, Error> {
    if s == "" then Ok([])
    else if s[0] != '/' then Err(ParseError(107))
    else ParseSegments(s[1..])
  }

  lemma SlashIndexAfterToken(e: string, rest: string)
    requires '/' !in e && (rest == "" || rest[0] == '/')
    ensures SlashIndex(e + rest) == |e|
  {
    var t := e + rest;
    forall i | 0 <= i < |e| ensures t[i] != '/' {
      assert t[i] == e[i] && e[i] in e;
    }
    assert rest != "" ==> t[|e|] == '/';
    assert SlashIndex(t) >= |e| by {
      if SlashIndex(t) < |e| { assert false; }
    }
  }

  lemma ParseFirstSegment(e: string, rest: string)
    requires WellEscaped(e) && '/' !in e && (rest == "" || rest[0] == '/')
    ensures rest == "" ==> ParseSegments(e + rest) == Ok([Unescaped(e)])
    ensures rest != "" && ParseSegments(rest[1..]).Ok? ==>
              ParseSegments(e + rest) == Ok([Unescaped(e)] + ParseSegments(rest[1..]).value)
  {
    SlashIndexAfterToken(e, rest);
    assert (e + rest)[..|e|] == e;
    if rest == "" {
      assert e + rest == e;
    } else {
      assert (e + rest)[|e| + 1..] == rest[1..];
    }
  }

  /** Parsing the text of a pointer gives its tokens back, whatever characters they hold. */
  lemma {:induction false} ParseRender(p: Pointer)
    ensures Parse(Render(p)) == Ok(p)
    decreases |p|
  {
    hide Escaped, Unescaped, WellEscaped, ParseSegments, Render, Parse;
    RenderUnfolds(p);
    if p == [] {
      ParseUnfolds("");
    } else {
      var e, rest := Escaped(p[0]), Render(p[1..]);
      UnescapeUndoesEscape(p[0]);
      ParseRender(p[1..]);
      RenderUnfolds(p[1..]);
      ParseUnfolds(rest);
      ParseUnfolds("/" + (e + rest));
      ParseFirstSegment(e, rest);
      assert ("/" + (e + rest))[1..] == e + rest;
      assert p == [p[0]] + p[1..];
      assert Render(p) == "/" + (e + rest);
      if rest == "" {
        assert p == [p[0]];
      } else {
        assert ParseSegments(rest[1..]) == Ok(p[1..]);
      }
      assert ParseSegments(e + rest) == Ok(p);
    }
  }

  lemma RenderUnfolds(p: Pointer)
    ensures Render(p) == if p == [] then "" else "/" + (Escaped(p[0]) + Render(p[1..]))
    ensures p != [] ==> Render(p) != "" && Render(p)[0] == '/'
  {
  }

  lemma ParseUnfolds(s: string)
    ensures s == "" ==> Parse(s) == Ok([])
    ensures s != "" && s[0] == '/' ==> Parse(s) == ParseSegments(s[1..])
  {
  }

  lemma RenderCons(token: string, p: Pointer)
    ensures Render([token] + p) == "/" + (Escaped(token) + Render(p))
  {
    assert ([token] + p)[1..] == p;
  }

  lemma SplitAround(t: string, i: nat)
    requires i < |t|
    ensures t == t[..i] + ([t[i]] + t[i + 1..])
  {
  }

  lemma ParseSegmentsUnfold(t: string)
    requires ParseSegments(t).Ok? && SlashIndex(t) < |t|
    ensures var i := SlashIndex(t);
            && WellEscaped(t[..i]) && ParseSegments(t[i + 1..]).Ok?
            && ParseSegments(t).value == [Unescaped(t[..i])] + ParseSegments(t[i + 1..]).value
  {
  }

  lemma {:induction false} RenderSegments(t: string)
    requires ParseSegments(t).Ok?
    ensures Render(ParseSegments(t).value) == "/" + t
    decreases |t|
  {
    var i := SlashIndex(t);
    var head := t[..i];
    EscapeUndoesUnescape(head);
    RenderCons(Unescaped(head), if i == |t| then [] else ParseSegments(t[i + 1..]).value);
    if i == |t| {
      assert head == t;
      assert [Unescaped(t)] + [] == [Unescaped(t)];
    } else {
      ParseSegmentsUnfold(t);
      RenderSegments(t[i + 1..]);
      SplitAround(t, i);
    }
  }

  /** Whatever text parses is the text of its tokens: parsing loses nothing. */
  lemma RenderParse(s: string)
    requires Parse(s).Ok?
    ensures Render(Parse(s).value) == s
  {
    if s != "" {
      RenderSegments(s[1..]);
      assert s == "/" + s[1..];
    }
  }

  lemma {:induction false} SegmentsParseExactlyWhen(t: string)
    ensures ParseSegments(t).Ok? <==> WellEscaped(t)
    decreases |t|
  {
    var i := SlashIndex(t);
    if i == |t| {
      assert t[..i] == t;
    } else {
      SegmentsParseExactlyWhen(t[i + 1..]);
      WellEscapedSplit(t, i);
    }
  }

  /** A text is a pointer exactly when it is empty, or starts with a slash and escapes properly. */
  lemma ParsesExactlyWhen(s: string)
    ensures Parse(s).Ok? <==> s == "" || (s[0] == '/' && WellEscaped(s))
  {
    if s != "" && s[0] == '/' {
      SegmentsParseExactlyWhen(s[1..]);
      WellEscapedSplit(s, 0);
    }
  }

  lemma WellEscapedSplit(t: string, i: nat)
    requires i < |t| && t[i] == '/'
    ensures WellEscaped(t) <==> WellEscaped(t[..i]) && WellEscaped(t[i + 1..])
  {
    var a, b := t[..i], t[i + 1..];
    if WellEscaped(t) {
      forall k | 0 <= k < |a| ensures EscapeOkAt(a, k) { assert EscapeOkAt(t, k); }
      forall k | 0 <= k < |b| ensures EscapeOkAt(b, k) { assert EscapeOkAt(t, k + i + 1); }
    }
    if WellEscaped(a) && WellEscaped(b) {
      forall k | 0 <= k < |t| ensures EscapeOkAt(t, k) {
        if k < i { assert EscapeOkAt(a, k); } else if k > i { assert EscapeOkAt(b, k - i - 1); }
      }
    }
  }

  /** `whole` is what parsing gives when `tokens` are read and `rest` is the parse of what is left. */
  ghost predicate Continues(whole: Result<Pointer, Error>, tokens: Pointer, rest: Result<Pointer, Error>) {
    if rest.Ok? then whole == Ok(tokens + rest.value) else whole == Err(rest.error)
  }

  lemma NothingRead(whole: Result<Pointer, Error>)
    ensures Continues(whole, [], whole)
  {
    assert whole.Ok? ==> [] + whole.value == whole.value;
  }

  /** One turn of the `split` loop. */
  lemma SplitStep(s: string, start: nat, slash: nat, tokens: Pointer, whole: Result<Pointer, Error>)
    requires start <= |s| && slash == start + SlashIndex(s[start..])
    requires Continues(whole, tokens, ParseSegments(s[start..]))
    ensures slash <= |s|
    ensures var piece, tokens' := s[start..slash], tokens + [Unescaped(s[start..slash])];
            if !WellEscaped(piece) then whole == Err(ParseError(108))
            else if slash == |s| then whole == Ok(tokens')
            else Continues(whole, tokens', ParseSegments(s[slash + 1..]))
  {
    assert s[start..slash] == s[start..][..slash - start];
    if slash == |s| {
      assert s[start..slash] == s[start..];
    } else {
      assert s[start..][slash - start + 1..] == s[slash + 1..];
      var token, rest := Unescaped(s[start..slash]), ParseSegments(s[slash + 1..]);
      assert rest.Ok? ==> tokens + ([token] + rest.value) == (tokens + [token]) + rest.value;
    }
  }

  /** The `split` loop: walk from slash to slash, check each piece's escapes, unescape it. */
  method Split(s: string) returns (r: Result<Pointer, Error>)
    ensures r == Parse(s)
  {
    if s == "" {
      return Ok([]);
    }
    if s[0] != '/' {
      return Err(ParseError(107));
    }
    r := SplitTokens(s);
  }

  method SplitTokens(s: string) returns (r: Result<Pointer, Error>)
    requires s != ""
    ensures r == ParseSegments(s[1..])
  {
    hide WellEscaped, Unescaped, ParseSegments, Continues;
    var tokens: Pointer := [];
    var start: nat := 1;
    ghost var whole := ParseSegments(s[1..]);
    NothingRead(whole);
    while true
      invariant 1 <= start <= |s|
      invariant Continues(whole, tokens, ParseSegments(s[start..]))
      decreases |s| - start
    {
      var slash := start + SlashIndex(s[start..]);
      SplitStep(s, start, slash, tokens, whole);
      var piece := s[start..slash];
      var ok := CheckEscapes(piece);
      if !ok {
        return Err(ParseError(108));
      }
      piece := Unescape(piece);
      tokens := tokens + [piece];
      if slash == |s| {
        return Ok(tokens);
      }
      start := slash + 1;
    }
  }

  method CheckEscapes(token: string) returns (ok: bool)
    ensures ok <==> WellEscaped(token)
  {
    var pos := Find(token, "~", 0);
    var from := 0;
    while pos.Some?
      invariant from <= |token| && pos == Find(token, "~", from)
      invariant forall i | 0 <= i < from :: EscapeOkAt(token, i)
      decreases |token| - from
    {
      var p := pos.value;
      assert token[p] == token[p..p + 1][0] == '~';
      if p == |token| - 1 || (token[p + 1] != '0' && token[p + 1] != '1') {
        assert !EscapeOkAt(token, p);
        return false;
      }
      forall i | from <= i < p ensures EscapeOkAt(token, i) {
        assert !OccursAt(token, "~", i);
        assert token[i..i + 1] == [token[i]];
      }
      from := p + 1;
      pos := Find(token, "~", p + 1);
    }
    forall i | from <= i < |token| ensures EscapeOkAt(token, i) {
      assert !OccursAt(token, "~", i);
      assert token[i..i + 1] == [token[i]];
    }
    return true;
  }

  // ---------------------------------------------------------------- array indices

  const MAX_UINT64 := 0xffff_ffff_ffff_ffff

  function Digit(d: nat): char
    requires d < 10
  {
    '0' + d as char
  }

  predicate IsDigit(c: char) {
    '0' <= c <= '9'
  }

  /** std::to_string of an unsigned integer. */
  function Decimal(n: nat): string {
    if n < 10 then [Digit(n)] else Decimal(n / 10) + [Digit(n % 10)]
  }

  /** How many leading characters of `s` are digits. */
  function DigitRun(s: string): (n: nat)
    ensures n <= |s|
    ensures forall i | 0 <= i < n :: IsDigit(s[i])
    ensures n < |s| ==> !IsDigit(s[n])
  {
    if s == "" || !IsDigit(s[0]) then 0 else 1 + DigitRun(s[1..])
  }

  function DecimalValue(s: string): nat
    requires forall i | 0 <= i < |s| :: IsDigit(s[i])
  {
    if s == "" then 0
    else
      assert IsDigit(s[|s| - 1]);
      10 * DecimalValue(s[..|s| - 1]) + (s[|s| - 1] as int - '0' as int)
  }

  /** `array_index`. The checks before `strtoull` leave it no sign or space to skip. */
  function ArrayIndex(s: string): Result<nat, Error> {
    if |s| > 1 && s[0] == '0' then Err(ParseError(106))
    else if |s| > 1 && !('1' <= s[0] <= '9') then Err(ParseError(109))
    else
      var n := DigitRun(s);
      var res := DecimalValue(s[..n]);
      if n == 0 || res > MAX_UINT64 || n != |s| then Err(OutOfRange(404))
      else if res >= MAX_UINT64 then Err(OutOfRange(410))
      else Ok(res)
  }

  /** Decimal texts: one more digit behind the text is one more digit of the number. */
  lemma DecimalAppends(n: nat, d: nat)
    requires d < 10
    ensures n > 0 ==> Decimal(10 * n + d) == Decimal(n) + [Digit(d)]
    ensures Decimal(d) == [Digit(d)] && Digit(d) as int == '0' as int + d
  {
    assert (10 * n + d) / 10 == n && (10 * n + d) % 10 == d;
  }

  lemma {:induction false} DecimalShape(n: nat)
    ensures forall i | 0 <= i < |Decimal(n)| :: IsDigit(Decimal(n)[i])
    ensures |Decimal(n)| > 0 && (n > 0 ==> Decimal(n)[0] != '0')
    ensures n >= 10 ==> |Decimal(n)| > 1
    ensures DecimalValue(Decimal(n)) == n
  {
    if n >= 10 {
      DecimalShape(n / 10);
      assert Decimal(n)[..|Decimal(n)| - 1] == Decimal(n / 10);
    }
  }

  lemma {:induction false} DecimalOfValue(s: string)
    requires s != "" && forall i | 0 <= i < |s| :: IsDigit(s[i])
    requires |s| > 1 ==> s[0] != '0'
    ensures Decimal(DecimalValue(s)) == s
    ensures |s| > 1 ==> DecimalValue(s) >= 10
  {
    var front, last := s[..|s| - 1], s[|s| - 1];
    var d := last as int - '0' as int;
    assert Digit(d) == last;
    if |s| > 1 {
      DecimalOfValue(front);
      assert DecimalValue(front) >= 1 by {
        if |front| == 1 { assert front[..0] == ""; }
      }
      assert DecimalValue(s) / 10 == DecimalValue(front) && DecimalValue(s) % 10 == d;
      assert s == front + [last];
    } else {
      assert front == "";
    }
  }

  /** A token is an array index exactly when it is the decimal text of a representable number. */
  lemma IndexTokens(s: string, n: nat)
    ensures ArrayIndex(s) == Ok(n) <==> n < MAX_UINT64 && s == Decimal(n)
  {
    if s == Decimal(n) {
      DecimalShape(n);
      assert DigitRun(s) == |s|;
      assert s[..|s|] == s;
      assert n < 10 ==> |s| == 1;
    }
    if ArrayIndex(s) == Ok(n) {
      assert s[..DigitRun(s)] == s;
      DecimalOfValue(s);
    }
  }

  /** What is thrown for a token that is no index: a leading zero, no leading digit, 2^64-1, anything else. */
  lemma IndexErrors(s: string, max: nat)
    requires max == MAX_UINT64 && ArrayIndex(s).Err?
    ensures ArrayIndex(s).error ==
            if |s| > 1 && s[0] == '0' then ParseError(106)
            else if |s| > 1 && !IsDigit(s[0]) then ParseError(109)
            else if s == Decimal(max) then OutOfRange(410)
            else OutOfRange(404)
  {
    hide Decimal;
    DecimalShape(max);
    if s == Decimal(max) {
      assert DigitRun(s) == |s| && s[..|s|] == s;
    } else if ArrayIndex(s).error == OutOfRange(410) {
      assert s[..DigitRun(s)] == s;
      DecimalOfValue(s);
    }
  }
}
