/**
 RFC 6902 patches as `patch_inplace` runs them.

 A patch document is itself a JSON value. `Decode` reads one of its elements the way the
 library does, `Run` carries out one decoded operation, and `ApplyPatch` runs a whole
 document. An exception leaves the document as far as it got (`Thrown`). Class `Document`
 holds the document in a field that the methods overwrite, as the C++ object does.
 */
module JsonPatch {
  import opened Wrappers
  import opened JsonValues
  import opened JsonPointer

  /** The state of the document after a call that may throw. */
  datatype Outcome = Done(doc: Json) | Thrown(doc: Json, error: Error)

  datatype PatchOp =
    | Add(path: Pointer, value: Json)
    | Remove(path: Pointer)
    | Replace(path: Pointer, value: Json)
    | Move(from: Pointer, path: Pointer)
    | Copy(from: Pointer, path: Pointer)
    | Test(path: Pointer, value: Json)

  // ---------------------------------------------------------------- access by pointer

  /** One step of `get_checked`. */
  function Child(j: Json, token: string): Result<Json, Error> {
    match j
    case Object(m) => if token in m then Ok(m[token]) else Err(OutOfRange(403))
    case Array(a) =>
      if token == "-" then Err(OutOfRange(402))
      else (match ArrayIndex(token)
            case Err(e) => Err(e)
            case Ok(i) => if i < |a| then Ok(a[i]) else Err(OutOfRange(401)))
    case _ => Err(OutOfRange(404))
  }

  /** `at(ptr)`. */
  function Get(j: Json, p: Pointer): Result<Json, Error> {
    if p == [] then Ok(j)
    else match Child(j, p[0])
         case Err(e) => Err(e)
         case Ok(c) => Get(c, p[1..])
  }

  function SetChild(j: Json, token: string, v: Json): Json
    requires Child(j, token).Ok?
  {
    if j.Object? then Object(j.members[token := v])
    else Array(j.elems[ArrayIndex(token).value := v])
  }

  /** The document after assigning `v` through the reference that `at(p)` returned. */
  function Put(j: Json, p: Pointer, v: Json): Json
    requires Get(j, p).Ok?
  {
    if p == [] then v else SetChild(j, p[0], Put(Child(j, p[0]).value, p[1..], v))
  }

  // ---------------------------------------------------------------- the two wrappers

  /** What `operation_add` does to the parent it found. */
  function AddToParent(parent: Json, last: string, v: Json): Result<Json, Error> {
    match parent
    case Null => Ok(Object(map[last := v]))
    case Object(m) => Ok(Object(m[last := v]))
    case Array(a) =>
      if last == "-" then Ok(Array(a + [v]))
      else (match ArrayIndex(last)
            case Err(e) => Err(e)
            case Ok(i) => if i > |a| then Err(OutOfRange(401)) else Ok(Array(a[..i] + [v] + a[i..])))
    case _ => Err(AssertionFailed)
  }

  /** What `operation_remove` does to the parent it found; a primitive parent is left alone. */
  function RemoveFromParent(parent: Json, last: string): Result<Json, Error> {
    match parent
    case Object(m) => if last in m then Ok(Object(m - {last})) else Err(OutOfRange(403))
    case Array(a) =>
      (match ArrayIndex(last)
       case Err(e) => Err(e)
       case Ok(i) => if i >= |a| then Err(OutOfRange(401)) else Ok(Array(a[..i] + a[i + 1..])))
    case _ => Ok(parent)
  }

  function Parent(p: Pointer): Pointer
    requires p != []
  {
    p[..|p| - 1]
  }

  function Last(p: Pointer): string
    requires p != []
  {
    p[|p| - 1]
  }

  function AddAt(doc: Json, p: Pointer, v: Json): Result<Json, Error> {
    if p == [] then Ok(v)
    else if |p| > 1 && Get(doc, p[..1]).Err? then Err(Get(doc, p[..1]).error)
    else match Get(doc, Parent(p))
         case Err(e) => Err(e)
         case Ok(parent) =>
           match AddToParent(parent, Last(p), v)
           case Err(e) => Err(e)
           case Ok(parent') => Ok(Put(doc, Parent(p), parent'))
  }

  function RemoveAt(doc: Json, p: Pointer): Result<Json, Error> {
    if p == [] then Err(OutOfRange(405))
    else match Get(doc, Parent(p))
         case Err(e) => Err(e)
         case Ok(parent) =>
           match RemoveFromParent(parent, Last(p))
           case Err(e) => Err(e)
           case Ok(parent') => Ok(Put(doc, Parent(p), parent'))
  }

  // ---------------------------------------------------------------- running operations

  function FromResult(before: Json, r: Result<Json, Error>): Outcome {
    match r
    case Ok(doc) => Done(doc)
    case Err(e) => Thrown(before, e)
  }

  function Run(doc: Json, op: PatchOp): Outcome {
    match op
    case Add(p, v) => FromResult(doc, AddAt(doc, p, v))
    case Remove(p) => FromResult(doc, RemoveAt(doc, p))
    case Replace(p, v) =>
      (match Get(doc, p)
       case Err(e) => Thrown(doc, e)
       case Ok(_) => Done(Put(doc, p, v)))
    case Move(from, p) =>
      (match Get(doc, from)
       case Err(e) => Thrown(doc, e)
       case Ok(v) =>
         match RemoveAt(doc, from)
         case Err(e) => Thrown(doc, e)
         case Ok(doc') => FromResult(doc', AddAt(doc', p, v)))
    case Copy(from, p) =>
      (match Get(doc, from)
       case Err(e) => Thrown(doc, e)
       case Ok(v) => FromResult(doc, AddAt(doc, p, v)))
    case Test(p, v) =>
      (match Get(doc, p)
       case Err(e) => Thrown(doc, if e.OutOfRange? then OtherError(501) else e)
       case Ok(found) => if Equal(found, v) then Done(doc) else Thrown(doc, OtherError(501)))
  }

  /** Operations one after another, up to the first that throws. */
  function RunAll(doc: Json, ops: seq<PatchOp>): Outcome
    decreases |ops|
  {
    if ops == [] then Done(doc)
    else match Run(doc, ops[0])
         case Thrown(d, e) => Thrown(d, e)
         case Done(d) => RunAll(d, ops[1..])
  }

  // ---------------------------------------------------------------- patch documents

  datatype OpKind = AddOp | RemoveOp | ReplaceOp | MoveOp | CopyOp | TestOp | InvalidOp

  function GetOp(op: string): OpKind {
    if op == "add" then AddOp
    else if op == "remove" then RemoveOp
    else if op == "replace" then ReplaceOp
    else if op == "move" then MoveOp
    else if op == "copy" then CopyOp
    else if op == "test" then TestOp
    else InvalidOp
  }

  /** `get_value` without the string check. */
  function Member(val: Json, name: string): Result<Json, Error>
    requires val.Object?
  {
    if name in val.members then Ok(val.members[name]) else Err(ParseError(105))
  }

  function StringMember(val: Json, name: string): Result<string, Error>
    requires val.Object?
  {
    var v :- Member(val, name);
    if v.String? then Ok(v.text) else Err(ParseError(105))
  }

  /** One element of the patch array, its members read in the library's order. */
  function Decode(val: Json): Result<PatchOp, Error> {
    if !val.Object? then Err(ParseError(104))
    else
      var op :- StringMember(val, "op");
      var text :- StringMember(val, "path");
      var path :- Parse(text);
      match GetOp(op)
      case AddOp =>
        var v :- Member(val, "value");
        Ok(Add(path, v))
      case RemoveOp => Ok(Remove(path))
      case ReplaceOp =>
        var v :- Member(val, "value");
        Ok(Replace(path, v))
      case MoveOp =>
        var text' :- StringMember(val, "from");
        var from :- Parse(text');
        Ok(Move(from, path))
      case CopyOp =>
        var text' :- StringMember(val, "from");
        var from :- Parse(text');
        Ok(Copy(from, path))
      case TestOp =>
        var v :- Member(val, "value");
        Ok(Test(path, v))
      case InvalidOp => Err(ParseError(105))
  }

  function OpName(op: PatchOp): string {
    match op
    case Add(_, _) => "add"
    case Remove(_) => "remove"
    case Replace(_, _) => "replace"
    case Move(_, _) => "move"
    case Copy(_, _) => "copy"
    case Test(_, _) => "test"
  }

  /** The patch element that spells an operation below the location whose text is `prefix`. */
  function Encode(prefix: string, op: PatchOp): (r: Json)
    ensures r.Object?
  {
    var common := map["op" := String(OpName(op)), "path" := String(prefix + Render(op.path))];
    if op.Add? || op.Replace? || op.Test? then Object(common["value" := op.value])
    else if op.Move? || op.Copy? then Object(common["from" := String(prefix + Render(op.from))])
    else Object(common)
  }

  function EncodeAll(prefix: string, ops: seq<PatchOp>): (r: seq<Json>)
    ensures |r| == |ops|
  {
    seq(|ops|, i requires 0 <= i < |ops| => Encode(prefix, ops[i]))
  }

  function ApplyAll(doc: Json, vals: seq<Json>): Outcome
    decreases |vals|
  {
    if vals == [] then Done(doc)
    else match Decode(vals[0])
         case Err(e) => Thrown(doc, e)
         case Ok(op) =>
           match Run(doc, op)
           case Thrown(d, e) => Thrown(d, e)
           case Done(d) => ApplyAll(d, vals[1..])
  }

  /** `patch_inplace`. */
  function ApplyPatch(doc: Json, patch: Json): Outcome {
    if !patch.Array? then Thrown(doc, ParseError(104)) else ApplyAll(doc, patch.elems)
  }

  // ---------------------------------------------------------------- which elements are operations

  predicate HasText(val: Json, name: string)
    requires val.Object?
  {
    name in val.members && val.members[name].String?
  }

  /** Empty, or a slash first and every `~` followed by `0` or `1`. */
  predicate IsPointerText(s: string) {
    s == "" || (s[0] == '/' && WellEscaped(s))
  }

  /** What an operation of a given name needs besides its path. */
  predicate NeedsValue(op: string) {
    op == "add" || op == "replace" || op == "test"
  }

  predicate NeedsFrom(op: string) {
    op == "move" || op == "copy"
  }

  /** The shape of a patch element in section 4 of RFC 6902. */
  predicate IsOperation(val: Json) {
    && val.Object?
    && HasText(val, "op") && HasText(val, "path") && IsPointerText(val.members["path"].text)
    && (NeedsValue(val.members["op"].text) || NeedsFrom(val.members["op"].text) || val.members["op"].text == "remove")
    && (NeedsValue(val.members["op"].text) ==> "value" in val.members)
    && (NeedsFrom(val.members["op"].text) ==> HasText(val, "from") && IsPointerText(val.members["from"].text))
  }

  /** A pointer is spelled wrong where the library reads one. */
  predicate HasBadPointer(val: Json)
    requires val.Object?
  {
    && HasText(val, "op") && HasText(val, "path")
    && (!IsPointerText(val.members["path"].text)
        || (NeedsFrom(val.members["op"].text) && HasText(val, "from") && !IsPointerText(val.members["from"].text)))
  }

  lemma ParseErrors(s: string)
    ensures Parse(s).Ok? <==> IsPointerText(s)
    ensures Parse(s) == Err(ParseError(107)) <==> s != "" && s[0] != '/'
    ensures Parse(s).Err? ==> Parse(s).error == ParseError(107) || Parse(s).error == ParseError(108)
  {
    ParsesExactlyWhen(s);
    if s != "" && s[0] == '/' { SegmentErrors(s[1..]); }
  }

  lemma {:induction false} SegmentErrors(t: string)
    ensures ParseSegments(t).Err? ==> ParseSegments(t).error == ParseError(108)
    decreases |t|
  {
    hide WellEscaped, Unescaped;
    var i := SlashIndex(t);
    if i < |t| { SegmentErrors(t[i + 1..]); }
  }

  /** Which patch elements are read as operations, as which, and what is thrown for the others. */
  lemma {:induction false} DecodesExactlyWhen(val: Json)
    ensures Decode(val).Ok? <==> IsOperation(val)
    ensures Decode(val) == Err(ParseError(104)) <==> !val.Object?
    ensures val.Object? && !IsOperation(val) && !HasBadPointer(val) ==> Decode(val) == Err(ParseError(105))
    ensures val.Object? && HasBadPointer(val) ==>
              Decode(val) == Err(ParseError(107)) || Decode(val) == Err(ParseError(108))
    ensures IsOperation(val) ==>
              var op, name := Decode(val).value, val.members["op"].text;
              && (op.Add? <==> name == "add") && (op.Remove? <==> name == "remove")
              && (op.Replace? <==> name == "replace") && (op.Move? <==> name == "move")
              && (op.Copy? <==> name == "copy") && (op.Test? <==> name == "test")
              && Render(op.path) == val.members["path"].text
              && (NeedsValue(name) ==> op.value == val.members["value"])
              && (NeedsFrom(name) ==> Render(op.from) == val.members["from"].text)
  {
    hide Parse, IsPointerText, Render;
    if val.Object? {
      if HasText(val, "path") { ReadPointer(val.members["path"].text); }
      if HasText(val, "from") { ReadPointer(val.members["from"].text); }
    }
  }

  lemma ReadPointer(text: string)
    ensures Parse(text).Ok? <==> IsPointerText(text)
    ensures Parse(text).Ok? ==> Render(Parse(text).value) == text
    ensures Parse(text).Err? ==> Parse(text).error == ParseError(107) || Parse(text).error == ParseError(108)
  {
    hide Parse, IsPointerText, Render;
    ParseErrors(text);
    if Parse(text).Ok? { RenderParse(text); }
  }

  /** The first token that does not resolve decides the error: what it meets, and what it is. */
  lemma {:induction false} FirstUnresolvedToken(doc: Json, p: Pointer, max: nat)
    requires max == MAX_UINT64
    ensures Get(doc, p).Err? ==> exists k ::
                && 0 <= k < |p| && Get(doc, p[..k]).Ok?
                && ResolveError(Get(doc, p[..k]).value, p[k], Get(doc, p).error, max)
    decreases |p|
  {
    if p != [] && Get(doc, p).Err? {
      var c := Child(doc, p[0]);
      if c.Err? {
        assert p[..0] == [] && Get(doc, []) == Ok(doc);
        ChildError(doc, p[0], max);
        assert ResolveError(Get(doc, p[..0]).value, p[0], Get(doc, p).error, max);
      } else {
        FirstUnresolvedToken(c.value, p[1..], max);
        var k :| 0 <= k < |p[1..]| && Get(c.value, p[1..][..k]).Ok?
                 && ResolveError(Get(c.value, p[1..][..k]).value, p[1..][k], Get(c.value, p[1..]).error, max);
        assert p[..k + 1][1..] == p[1..][..k] && p[..k + 1][0] == p[0];
        assert Get(doc, p[..k + 1]) == Get(c.value, p[1..][..k]) && p[k + 1] == p[1..][k];
      }
    }
  }

  /** What resolving one token throws: 403 for a missing key, 401 for an index at or behind the end, 402 for `-`. */
  ghost predicate ResolveError(j: Json, token: string, e: Error, max: nat) {
    if j.Object? then token !in j.members && e == OutOfRange(403)
    else if !j.Array? then e == OutOfRange(404)
    else if token == "-" then e == OutOfRange(402)
    else if |token| > 1 && token[0] == '0' then e == ParseError(106)
    else if |token| > 1 && !IsDigit(token[0]) then e == ParseError(109)
    else if exists n :: |j.elems| <= n < max && token == Decimal(n) then e == OutOfRange(401)
    else e == if token == Decimal(max) then OutOfRange(410) else OutOfRange(404)
  }

  lemma ChildError(j: Json, token: string, max: nat)
    requires max == MAX_UINT64 && Child(j, token).Err?
    ensures ResolveError(j, token, Child(j, token).error, max)
  {
    hide Decimal, ArrayIndex;
    if j.Array? && token != "-" {
      if ArrayIndex(token).Ok? {
        var n := ArrayIndex(token).value;
        IndexTokens(token, n);
        assert |j.elems| <= n < max && token == Decimal(n);
        DecimalShape(n);
        assert |token| > 1 ==> n >= 10 by { if n < 10 { OneDigit(n); } }
      } else {
        IndexErrors(token, max);
        forall n | |j.elems| <= n < max ensures token != Decimal(n) { IndexTokens(token, n); }
      }
    }
  }

  lemma OneDigit(n: nat)
    requires n < 10
    ensures |Decimal(n)| == 1
  {
  }

  lemma EncodedMembers(op: PatchOp)
    ensures var val := Encode("", op);
            && StringMember(val, "op") == Ok(OpName(op))
            && StringMember(val, "path") == Ok(Render(op.path))
            && (op.Add? || op.Replace? || op.Test? ==> Member(val, "value") == Ok(op.value))
            && (op.Move? || op.Copy? ==> StringMember(val, "from") == Ok(Render(op.from)))
  {
    assert "" + Render(op.path) == Render(op.path);
    if op.Move? || op.Copy? {
      assert "" + Render(op.from) == Render(op.from);
    }
  }

  function KindOf(op: PatchOp): OpKind {
    match op
    case Add(_, _) => AddOp
    case Remove(_) => RemoveOp
    case Replace(_, _) => ReplaceOp
    case Move(_, _) => MoveOp
    case Copy(_, _) => CopyOp
    case Test(_, _) => TestOp
  }

  lemma GetOpOfName(op: PatchOp)
    ensures GetOp(OpName(op)) == KindOf(op)
  {
  }

  /** Reading back a spelled-out operation gives that operation, for all six kinds. */
  lemma DecodeEncode(op: PatchOp)
    ensures Decode(Encode("", op)) == Ok(op)
  {
    hide Decode, Encode, StringMember, Member, Parse, Render, OpName, GetOp;
    EncodedMembers(op);
    GetOpOfName(op);
    ParseRender(op.path);
    if op.Move? || op.Copy? {
      ParseRender(op.from);
    }
    PointerMemberIs(Encode("", op), "path");
    PointerMemberIs(Encode("", op), "from");
    DecodeByMembers(Encode("", op));
  }

  lemma PointerMemberIs(val: Json, name: string)
    requires val.Object?
    ensures StringMember(val, name).Ok? ==> PointerMember(val, name) == Parse(StringMember(val, name).value)
  {
    hide StringMember, Parse;
  }

  /** Running the spelled-out patch is running the operations. */
  lemma {:induction false} ApplyEncoded(doc: Json, ops: seq<PatchOp>)
    ensures ApplyAll(doc, EncodeAll("", ops)) == RunAll(doc, ops)
    decreases |ops|
  {
    hide Decode, Encode, Run;
    if ops != [] {
      DecodeEncode(ops[0]);
      var rest := EncodeAll("", ops[1..]);
      assert EncodeAll("", ops)[1..] == rest;
      if Run(doc, ops[0]).Done? {
        ApplyEncoded(Run(doc, ops[0]).doc, ops[1..]);
      }
    }
  }

  /** A patch in two parts: the second runs on what the first left, and not at all if the first threw. */
  lemma {:induction false} ApplyInParts(doc: Json, first: seq<Json>, second: seq<Json>)
    ensures ApplyPatch(doc, Array(first + second)) ==
            match ApplyPatch(doc, Array(first))
            case Thrown(d, e) => Thrown(d, e)
            case Done(d) => ApplyPatch(d, Array(second))
    decreases |first|
  {
    if first == [] {
      assert first + second == second;
    } else {
      assert (first + second)[1..] == first[1..] + second;
      match Decode(first[0])
      case Err(_) =>
      case Ok(op) =>
        match Run(doc, op)
        case Thrown(_, _) =>
        case Done(d) => ApplyInParts(d, first[1..], second);
    }
  }

  lemma {:induction false} RunInParts(doc: Json, first: seq<PatchOp>, second: seq<PatchOp>)
    requires RunAll(doc, first).Done?
    ensures RunAll(doc, first + second) == RunAll(RunAll(doc, first).doc, second)
    decreases |first|
  {
    hide Run;
    if first == [] {
      assert first + second == second;
    } else {
      assert (first + second)[1..] == first[1..] + second;
      RunInParts(Run(doc, first[0]).doc, first[1..], second);
    }
  }

  // ---------------------------------------------------------------- lifting below a child

  /** The same operation, addressed from one level further up. */
  function Lift(token: string, op: PatchOp): PatchOp {
    match op
    case Add(p, v) => Add([token] + p, v)
    case Remove(p) => Remove([token] + p)
    case Replace(p, v) => Replace([token] + p, v)
    case Move(f, p) => Move([token] + f, [token] + p)
    case Copy(f, p) => Copy([token] + f, [token] + p)
    case Test(p, v) => Test([token] + p, v)
  }

  function LiftAll(token: string, ops: seq<PatchOp>): seq<PatchOp> {
    seq(|ops|, i requires 0 <= i < |ops| => Lift(token, ops[i]))
  }

  /** No add or remove (alone or as part of a move or copy) is aimed at the root. */
  predicate BelowRoot(op: PatchOp) {
    match op
    case Add(p, _) => p != []
    case Remove(p) => p != []
    case Move(f, p) => f != [] && p != []
    case Copy(_, p) => p != []
    case Replace(_, _) => true
    case Test(_, _) => true
  }

  function Inside(doc: Json, token: string, o: Outcome): Outcome
    requires Child(doc, token).Ok?
  {
    match o
    case Done(d) => Done(SetChild(doc, token, d))
    case Thrown(d, e) => Thrown(SetChild(doc, token, d), e)
  }

  /** A child reads back as written; every other child stays as it was. */
  lemma SetChildFrame(doc: Json, token: string, v: Json)
    requires Child(doc, token).Ok?
    ensures Child(SetChild(doc, token, v), token) == Ok(v)
    ensures forall t | t != token :: Child(SetChild(doc, token, v), t) == Child(doc, t)
    ensures SetChild(doc, token, Child(doc, token).value) == doc
    ensures forall w :: SetChild(SetChild(doc, token, v), token, w) == SetChild(doc, token, w)
  {
    if doc.Array? {
      var i := ArrayIndex(token).value;
      IndexTokens(token, i);
      forall t | t != token ensures Child(SetChild(doc, token, v), t) == Child(doc, t) {
        if ArrayIndex(t).Ok? { IndexTokens(t, ArrayIndex(t).value); }
      }
    }
  }

  lemma GetBelow(doc: Json, token: string, p: Pointer)
    requires Child(doc, token).Ok?
    ensures Get(doc, [token] + p) == Get(Child(doc, token).value, p)
    ensures Get(doc, [token] + p).Ok? ==> forall v ::
                Put(doc, [token] + p, v) == SetChild(doc, token, Put(Child(doc, token).value, p, v))
  {
    assert ([token] + p)[1..] == p;
  }

  /** The check that the top element exists repeats what fetching the parent checks. */
  lemma TopCheckIsRedundant(doc: Json, p: Pointer)
    requires |p| > 1
    ensures Get(doc, p[..1]).Err? ==> Get(doc, Parent(p)) == Get(doc, p[..1])
  {
    assert p[..1] == [p[0]] && Parent(p)[0] == p[0];
    assert [p[0]][1..] == [];
  }

  lemma AddBelow(doc: Json, token: string, p: Pointer, v: Json)
    requires Child(doc, token).Ok? && p != []
    ensures FromResult(doc, AddAt(doc, [token] + p, v)) ==
            Inside(doc, token, FromResult(Child(doc, token).value, AddAt(Child(doc, token).value, p, v)))
  {
    var q := [token] + p;
    assert Parent(q) == [token] + Parent(p);
    GetBelow(doc, token, Parent(p));
    SetChildFrame(doc, token, v);
    assert q[..1] == [token] + [];
    GetBelow(doc, token, []);
    if |p| > 1 { TopCheckIsRedundant(Child(doc, token).value, p); }
  }

  lemma RemoveBelow(doc: Json, token: string, p: Pointer)
    requires Child(doc, token).Ok? && p != []
    ensures FromResult(doc, RemoveAt(doc, [token] + p)) ==
            Inside(doc, token, FromResult(Child(doc, token).value, RemoveAt(Child(doc, token).value, p)))
  {
    var q := [token] + p;
    assert Parent(q) == [token] + Parent(p);
    GetBelow(doc, token, Parent(p));
    SetChildFrame(doc, token, Null);
  }

  /** An operation addressed through an existing child acts on that child alone. */
  lemma LiftRun(doc: Json, token: string, op: PatchOp)
    requires Child(doc, token).Ok? && BelowRoot(op)
    ensures Run(doc, Lift(token, op)) == Inside(doc, token, Run(Child(doc, token).value, op))
  {
    var c := Child(doc, token).value;
    SetChildFrame(doc, token, c);
    match op
    case Add(p, v) => AddBelow(doc, token, p, v);
    case Remove(p) => RemoveBelow(doc, token, p);
    case Replace(p, v) => GetBelow(doc, token, p);
    case Test(p, v) => GetBelow(doc, token, p);
    case Copy(f, p) =>
      GetBelow(doc, token, f);
      if Get(c, f).Ok? { AddBelow(doc, token, p, Get(c, f).value); }
    case Move(f, p) =>
      GetBelow(doc, token, f);
      RemoveBelow(doc, token, f);
      if Get(c, f).Ok? && RemoveAt(c, f).Ok? {
        var c' := RemoveAt(c, f).value;
        SetChildFrame(doc, token, c');
        AddBelow(SetChild(doc, token, c'), token, p, Get(c, f).value);
      }
  }

  /**
   Prefix lifting: a patch that works entirely below one existing child is the stripped
   patch run on that child, with every sibling untouched (see SetChildFrame), whether it
   completes or throws.
   */
  lemma {:induction false} LiftRunAll(doc: Json, token: string, ops: seq<PatchOp>)
    requires Child(doc, token).Ok? && forall op | op in ops :: BelowRoot(op)
    ensures RunAll(doc, LiftAll(token, ops)) == Inside(doc, token, RunAll(Child(doc, token).value, ops))
    decreases |ops|
  {
    var c := Child(doc, token).value;
    if ops == [] {
      SetChildFrame(doc, token, c);
    } else {
      LiftRun(doc, token, ops[0]);
      assert LiftAll(token, ops)[1..] == LiftAll(token, ops[1..]);
      var o := Run(c, ops[0]);
      if o.Done? {
        SetChildFrame(doc, token, o.doc);
        LiftRunAll(SetChild(doc, token, o.doc), token, ops[1..]);
      }
    }
  }

  /** A patch document that reads as some operations runs as those operations, however it spells them. */
  lemma {:induction false} ApplyDecoded(doc: Json, vals: seq<Json>, ops: seq<PatchOp>)
    requires |vals| == |ops| && forall i | 0 <= i < |vals| :: Decode(vals[i]) == Ok(ops[i])
    ensures ApplyAll(doc, vals) == RunAll(doc, ops)
    decreases |ops|
  {
    hide Decode, Run;
    if ops != [] {
      var o := Run(doc, ops[0]);
      if o.Done? { ApplyDecoded(o.doc, vals[1..], ops[1..]); }
    }
  }

  /** The text of a pointer, addressed from one level further up; a text that is none is left alone. */
  function LiftText(token: string, j: Json): Json {
    if j.String? && Parse(j.text).Ok? then String("/" + (Escaped(token) + j.text)) else j
  }

  /** A patch element with its `path` and its `from` addressed from one level further up. */
  function LiftElement(token: string, val: Json): Json {
    if !val.Object? then val
    else Object(map k | k in val.members ::
                  if k == "path" || k == "from" then LiftText(token, val.members[k]) else val.members[k])
  }

  function LiftElements(token: string, vals: seq<Json>): seq<Json> {
    seq(|vals|, i requires 0 <= i < |vals| => LiftElement(token, vals[i]))
  }

  lemma ParseLifted(token: string, text: string)
    requires Parse(text).Ok?
    ensures Parse("/" + (Escaped(token) + text)) == Ok([token] + Parse(text).value)
  {
    RenderParse(text);
    RenderCons(token, Parse(text).value);
    ParseRender([token] + Parse(text).value);
  }

  function PointerMember(val: Json, name: string): Result<Pointer, Error>
    requires val.Object?
  {
    var text :- StringMember(val, name);
    Parse(text)
  }

  lemma LiftedPointerMember(token: string, val: Json, name: string)
    requires val.Object? && (name == "path" || name == "from")
    ensures PointerMember(LiftElement(token, val), name) ==
            match PointerMember(val, name) case Err(e) => Err(e) case Ok(p) => Ok([token] + p)
  {
    hide Parse;
    if name in val.members && val.members[name].String? && Parse(val.members[name].text).Ok? {
      ParseLifted(token, val.members[name].text);
    }
  }

  /** A lifted element reads as the lifted operation; one that does not read fails the same way. */
  lemma DecodeLifted(token: string, val: Json)
    ensures Decode(LiftElement(token, val)) ==
            match Decode(val) case Err(e) => Err(e) case Ok(op) => Ok(Lift(token, op))
  {
    hide Parse;
    if val.Object? {
      var val' := LiftElement(token, val);
      LiftedPointerMember(token, val, "path");
      LiftedPointerMember(token, val, "from");
      assert StringMember(val', "op") == StringMember(val, "op");
      assert Member(val', "value") == Member(val, "value");
      DecodeByMembers(val);
      DecodeByMembers(val');
    }
  }

  /** An element read through its members: what `Decode` does, pointers taken whole. */
  lemma DecodeByMembers(val: Json)
    requires val.Object?
    ensures Decode(val) == ReadMembers(StringMember(val, "op"), PointerMember(val, "path"),
                                       PointerMember(val, "from"), Member(val, "value"))
  {
    hide Parse;
  }

  function ReadMembers(
    op: Result<string, Error>, path: Result<Pointer, Error>, from: Result<Pointer, Error>, value: Result<Json, Error>)
    : Result<PatchOp, Error>
  {
    var op :- op;
    var path :- path;
    match GetOp(op)
    case AddOp =>
      var v :- value;
      Ok(Add(path, v))
    case RemoveOp => Ok(Remove(path))
    case ReplaceOp =>
      var v :- value;
      Ok(Replace(path, v))
    case MoveOp =>
      var f :- from;
      Ok(Move(f, path))
    case CopyOp =>
      var f :- from;
      Ok(Copy(f, path))
    case TestOp =>
      var v :- value;
      Ok(Test(path, v))
    case InvalidOp => Err(ParseError(105))
  }

  /** No element that reads as an operation adds or removes at the root. */
  predicate BelowRootAll(vals: seq<Json>) {
    forall i | 0 <= i < |vals| && Decode(vals[i]).Ok? :: BelowRoot(Decode(vals[i]).value)
  }

  /**
   Prefix lifting for patch documents as they stand: a document whose pointers all go through
   one existing child does to that child what the stripped document does to it alone, and
   throws what that throws, malformed elements included.
   */
  lemma {:induction false} LiftDocument(doc: Json, token: string, vals: seq<Json>)
    requires Child(doc, token).Ok? && BelowRootAll(vals)
    ensures ApplyPatch(doc, Array(LiftElements(token, vals))) ==
            Inside(doc, token, ApplyPatch(Child(doc, token).value, Array(vals)))
    decreases |vals|
  {
    hide Decode, LiftElement, Run;
    var c := Child(doc, token).value;
    SetChildFrame(doc, token, c);
    if vals != [] {
      DecodeLifted(token, vals[0]);
      assert LiftElements(token, vals)[1..] == LiftElements(token, vals[1..]);
      if Decode(vals[0]).Ok? {
        LiftRun(doc, token, Decode(vals[0]).value);
        var o := Run(c, Decode(vals[0]).value);
        if o.Done? {
          SetChildFrame(doc, token, o.doc);
          LiftDocument(SetChild(doc, token, o.doc), token, vals[1..]);
        }
      }
    }
  }

  lemma RenderBelow(prefix: string, token: string, p: Pointer)
    ensures (prefix + ("/" + Escaped(token))) + Render(p) == prefix + Render([token] + p)
  {
    RenderCons(token, p);
  }

  /** Spelling an operation below a longer prefix is spelling the lifted operation. */
  lemma EncodeLift(prefix: string, token: string, op: PatchOp)
    ensures Encode(prefix + ("/" + Escaped(token)), op) == Encode(prefix, Lift(token, op))
  {
    RenderBelow(prefix, token, op.path);
    if op.Move? || op.Copy? { RenderBelow(prefix, token, op.from); }
  }

  lemma EncodeLiftAll(prefix: string, token: string, ops: seq<PatchOp>)
    ensures EncodeAll(prefix + ("/" + Escaped(token)), ops) == EncodeAll(prefix, LiftAll(token, ops))
  {
    forall i | 0 <= i < |ops| {
      EncodeLift(prefix, token, ops[i]);
    }
  }

  lemma EncodeConcat(prefix: string, a: seq<PatchOp>, b: seq<PatchOp>)
    ensures EncodeAll(prefix, a + b) == EncodeAll(prefix, a) + EncodeAll(prefix, b)
  {
  }

  // ---------------------------------------------------------------- against RFC 6902

  /**
   Section 4.2 of RFC 6902 lets a remove succeed only if its target exists. The library's
   remove succeeds in one more case: the parent exists and is neither object nor array.
   It then changes nothing.
   */
  lemma RemoveSucceedsExactlyWhen(doc: Json, p: Pointer)
    ensures Run(doc, Remove(p)).Done? <==>
            p != [] && Get(doc, Parent(p)).Ok? &&
            var parent := Get(doc, Parent(p)).value;
            (Get(doc, p).Ok? || !(parent.Object? || parent.Array?))
    ensures Run(doc, Remove(p)).Done? && Get(doc, p).Err? ==> Run(doc, Remove(p)).doc == doc
  {
    if p != [] {
      GetViaParent(doc, p);
      if Get(doc, Parent(p)).Ok? {
        PutSame(doc, Parent(p));
        assert ArrayIndex("-").Err?;
      }
    }
  }

  /** The exceptions of the operations themselves; a document that throws one is unchanged by that operation. */
  lemma OperationErrors(doc: Json, p: Pointer, v: Json)
    ensures Run(doc, Remove([])) == Thrown(doc, OutOfRange(405))
    ensures p != [] && Get(doc, Parent(p)).Ok? ==>
              var parent, last := Get(doc, Parent(p)).value, Last(p);
              && (parent.Object? && last !in parent.members ==> Run(doc, Remove(p)) == Thrown(doc, OutOfRange(403)))
              && (parent.Array? && ArrayIndex(last).Ok? ==>
                    && (ArrayIndex(last).value >= |parent.elems| ==> Run(doc, Remove(p)) == Thrown(doc, OutOfRange(401)))
                    && (ArrayIndex(last).value > |parent.elems| ==> Run(doc, Add(p, v)) == Thrown(doc, OutOfRange(401))))
              && (parent.Array? && ArrayIndex(last).Err? ==>
                    && Run(doc, Remove(p)) == Thrown(doc, ArrayIndex(last).error)
                    && (last != "-" ==> Run(doc, Add(p, v)) == Thrown(doc, ArrayIndex(last).error)))
    ensures Get(doc, p).Ok? && !Equal(Get(doc, p).value, v) ==> Run(doc, Test(p, v)) == Thrown(doc, OtherError(501))
    ensures Get(doc, p).Err? ==>
              Run(doc, Test(p, v)) ==
              Thrown(doc, if Get(doc, p).error.OutOfRange? then OtherError(501) else Get(doc, p).error)
    ensures !v.Array? ==> ApplyPatch(doc, v) == Thrown(doc, ParseError(104))
  {
    hide Get, ArrayIndex, Equal, Put;
    if p != [] && Get(doc, Parent(p)).Ok? && |p| > 1 {
      TopCheckIsRedundant(doc, p);
    }
    DashIsNoIndex();
  }

  lemma DashIsNoIndex()
    ensures ArrayIndex("-").Err?
  {
  }

  /** Removing below a string is not an error, although there is nothing to remove. */
  lemma RemoveBelowPrimitive()
    ensures Get(String("s"), ["x"]).Err?
    ensures Run(String("s"), Remove(["x"])) == Done(String("s"))
  {
    assert Parent(["x"]) == [];
  }

  /** The library's add succeeds exactly at the root, or where the parent has a place for it. */
  lemma AddSucceedsExactlyWhen(doc: Json, p: Pointer, v: Json)
    ensures Run(doc, Add(p, v)).Done? <==>
            p == [] || (Get(doc, Parent(p)).Ok? && HasPlace(Get(doc, Parent(p)).value, Last(p)))
  {
    if |p| > 1 { TopCheckIsRedundant(doc, p); }
  }

  predicate HasPlace(parent: Json, last: string) {
    parent.Null? || parent.Object? || (parent.Array? && IsInsertionPoint(parent.elems, last))
  }

  predicate IsInsertionPoint(a: seq<Json>, last: string) {
    last == "-" || (ArrayIndex(last).Ok? && ArrayIndex(last).value <= |a|)
  }

  /**
   Section 4.1 of RFC 6902: the target is the root, a member of an existing object, or a
   position in an existing array.
   */
  predicate MayAdd(doc: Json, p: Pointer) {
    p == [] ||
    (Get(doc, Parent(p)).Ok? &&
     var parent := Get(doc, Parent(p)).value;
     parent.Object? || (parent.Array? && IsInsertionPoint(parent.elems, Last(p))))
  }

  /**
   Every add that section 4.1 of RFC 6902 allows goes through. One that goes through is
   allowed exactly when its parent is not null; a null parent becomes an object whose only
   member is the value added.
   */
  lemma AddMeetsRfcExactlyWhen(doc: Json, p: Pointer, v: Json)
    ensures MayAdd(doc, p) ==> Run(doc, Add(p, v)).Done?
    ensures Run(doc, Add(p, v)).Done? && p != [] ==>
              Get(doc, Parent(p)).Ok? && (MayAdd(doc, p) <==> !Get(doc, Parent(p)).value.Null?)
    ensures Run(doc, Add(p, v)).Done? && !MayAdd(doc, p) ==>
              Get(Run(doc, Add(p, v)).doc, Parent(p)) == Ok(Object(map[Last(p) := v]))
  {
    AddSucceedsExactlyWhen(doc, p, v);
    if Run(doc, Add(p, v)).Done? && !MayAdd(doc, p) {
      PutGet(doc, Parent(p), Object(map[Last(p) := v]));
    }
  }

  /** Adding below null is not an error: the null becomes an object. */
  lemma AddBelowNull()
    ensures !MayAdd(Null, ["x"])
    ensures Run(Null, Add(["x"], Boolean(true))) == Done(Object(map["x" := Boolean(true)]))
  {
    assert Parent(["x"]) == [];
  }

  lemma {:induction false} GetViaParent(doc: Json, p: Pointer)
    requires p != []
    ensures Get(doc, p) ==
            match Get(doc, Parent(p)) case Err(e) => Err(e) case Ok(parent) => Child(parent, Last(p))
    decreases |p|
  {
    if |p| > 1 && Child(doc, p[0]).Ok? {
      GetViaParent(Child(doc, p[0]).value, p[1..]);
      assert Parent(p)[1..] == Parent(p[1..]);
    }
  }

  /** Adding a new member or inserting an element and then removing it restores the document. */
  lemma RemoveUndoesAdd(doc: Json, p: Pointer, v: Json)
    requires p != [] && Run(doc, Add(p, v)).Done?
    requires var parent := Get(doc, Parent(p)).value;
             (parent.Object? && Last(p) !in parent.members) || (parent.Array? && Last(p) != "-")
    ensures Get(Run(doc, Add(p, v)).doc, p) == Ok(v)
    ensures Run(Run(doc, Add(p, v)).doc, Remove(p)) == Done(doc)
  {
    hide Run, Get, Put, AddToParent, RemoveFromParent, Child;
    AddResult(doc, p, v);
    var parent := Get(doc, Parent(p)).value;
    var parent', doc' := AddToParent(parent, Last(p), v).value, Run(doc, Add(p, v)).doc;
    PutGet(doc, Parent(p), parent');
    GetViaParent(doc', p);
    PutSame(doc, Parent(p));
    ParentRestored(parent, Last(p), v);
    RemoveResult(doc', p);
  }

  lemma ParentRestored(parent: Json, last: string, v: Json)
    requires AddToParent(parent, last, v).Ok?
    requires (parent.Object? && last !in parent.members) || (parent.Array? && last != "-")
    ensures var parent' := AddToParent(parent, last, v).value;
            Child(parent', last) == Ok(v) && RemoveFromParent(parent', last) == Ok(parent)
  {
    var parent' := AddToParent(parent, last, v).value;
    if parent.Object? {
      assert parent'.members - {last} == parent.members;
    } else {
      var i := ArrayIndex(last).value;
      assert parent'.elems[..i] + parent'.elems[i + 1..] == parent.elems;
    }
  }

  lemma {:induction false} PutGet(doc: Json, p: Pointer, v: Json)
    requires Get(doc, p).Ok?
    ensures Get(Put(doc, p, v), p) == Ok(v)
    ensures forall w :: Put(Put(doc, p, v), p, w) == Put(doc, p, w)
    decreases |p|
  {
    if p != [] {
      var c := Child(doc, p[0]).value;
      PutGet(c, p[1..], v);
      SetChildFrame(doc, p[0], Put(c, p[1..], v));
    }
  }

  lemma {:induction false} PutSame(doc: Json, p: Pointer)
    requires Get(doc, p).Ok?
    ensures Put(doc, p, Get(doc, p).value) == doc
    decreases |p|
  {
    if p != [] {
      PutSame(Child(doc, p[0]).value, p[1..]);
      SetChildFrame(doc, p[0], Null);
    }
  }

  /** Neither location lies at or below the other. */
  predicate Apart(p: Pointer, q: Pointer) {
    !(p <= q) && !(q <= p)
  }

  /** Assigning at one location leaves every location apart from it as it was. */
  lemma {:induction false} PutFrame(doc: Json, p: Pointer, v: Json, q: Pointer)
    requires Get(doc, p).Ok? && Apart(p, q)
    ensures Get(Put(doc, p, v), q) == Get(doc, q)
    decreases |p|
  {
    var c := Child(doc, p[0]).value;
    SetChildFrame(doc, p[0], Put(c, p[1..], v));
    if q[0] == p[0] {
      assert p == [p[0]] + p[1..] && q == [q[0]] + q[1..];
      PutFrame(c, p[1..], v, q[1..]);
    }
  }

  /** Resolving a pointer can stop anywhere on the way and go on from there. */
  lemma {:induction false} GetThrough(doc: Json, p: Pointer, q: Pointer)
    requires p <= q && Get(doc, p).Ok?
    ensures Get(doc, q) == Get(Get(doc, p).value, q[|p|..])
    decreases |p|
  {
    if p != [] {
      GetThrough(Child(doc, p[0]).value, p[1..], q[1..]);
      assert q[1..][|p| - 1..] == q[|p|..];
    }
  }

  /** Below a location that was assigned, what is found is found in the value assigned. */
  lemma GetInsidePut(doc: Json, p: Pointer, v: Json, q: Pointer)
    requires Get(doc, p).Ok? && p <= q
    ensures Get(Put(doc, p, v), q) == Get(v, q[|p|..])
  {
    PutGet(doc, p, v);
    GetThrough(Put(doc, p, v), p, q);
  }

  /** Objects that agree on every key but one resolve every pointer that starts elsewhere alike. */
  lemma OtherKeySame(m: map<string, Json>, m': map<string, Json>, k: string, q: Pointer)
    requires m - {k} == m' - {k} && q != [] && q[0] != k
    ensures Get(Object(m'), q) == Get(Object(m), q)
  {
    var t := q[0];
    assert t in m <==> t in m - {k};
    assert t in m' <==> t in m' - {k};
    if t in m { assert m[t] == (m - {k})[t] == m'[t]; }
  }

  lemma OtherMembersSame(doc: Json, up: Pointer, k: string, m': map<string, Json>, q: Pointer)
    requires Get(doc, up).Ok? && Get(doc, up).value.Object? && Apart(up + [k], q)
    requires Get(doc, up).value.members - {k} == m' - {k}
    ensures Get(Put(doc, up, Object(m')), q) == Get(doc, q)
  {
    if up <= q {
      hide Get, Put;
      var rest := q[|up|..];
      assert rest != [] && rest[0] != k by { KeyDiffers(up, k, q); }
      GetInsidePut(doc, up, Object(m'), q);
      GetThrough(doc, up, q);
      OtherKeySame(Get(doc, up).value.members, m', k, rest);
    } else {
      assert Apart(up, q) by { NotAbove(up, k, q); }
      PutFrame(doc, up, Object(m'), q);
    }
  }

  lemma KeyDiffers(up: Pointer, k: string, q: Pointer)
    requires up <= q && Apart(up + [k], q)
    ensures |q| > |up| && q[|up|] != k
  {
    assert |q| == |up| ==> q == up <= up + [k];
    assert |q| > |up| && q[|up|] == k ==> up + [k] <= q;
  }

  lemma NotAbove(up: Pointer, k: string, q: Pointer)
    requires Apart(up + [k], q)
    ensures !(q <= up)
  {
    assert q <= up ==> q <= up + [k];
  }

  /** Adding or removing an object's member leaves every location apart from it as it was. */
  lemma MemberFrame(doc: Json, op: PatchOp, q: Pointer)
    requires op.Add? || op.Remove?
    requires op.path != [] && Run(doc, op).Done? && Get(doc, Parent(op.path)).value.Object? && Apart(op.path, q)
    ensures Get(Run(doc, op).doc, q) == Get(doc, q)
  {
    hide Get, Put, Apart;
    var up, k := Parent(op.path), Last(op.path);
    var m := Get(doc, up).value.members;
    var m' := if op.Add? then m[k := op.value] else m - {k};
    assert op.path == up + [k];
    assert m - {k} == m' - {k};
    assert Run(doc, op).doc == Put(doc, up, Object(m'));
    OtherMembersSame(doc, up, k, m', q);
  }

  /** Inserting an element moves those from its position on up by one, and changes no other. */
  lemma ElementsMoveUp(doc: Json, p: Pointer, v: Json, j: nat, rest: Pointer)
    requires p != [] && Run(doc, Add(p, v)).Done? && Last(p) != "-"
    requires var parent := Get(doc, Parent(p)).value;
             parent.Array? && j < |parent.elems| && |parent.elems| + 1 < MAX_UINT64
    ensures var i := ArrayIndex(Last(p)).value;
            Get(Run(doc, Add(p, v)).doc, Parent(p) + ([Decimal(if j < i then j else j + 1)] + rest)) ==
            Get(doc, Parent(p) + ([Decimal(j)] + rest))
  {
    hide Run, Get, Put, ArrayIndex, Decimal;
    AddResult(doc, p, v);
    var up, i := Parent(p), ArrayIndex(Last(p)).value;
    var parent := Get(doc, up).value;
    var parent' := AddToParent(parent, Last(p), v).value;
    var j' := if j < i then j else j + 1;
    GetInsidePut(doc, up, parent', up + ([Decimal(j')] + rest));
    GetThrough(doc, up, up + ([Decimal(j)] + rest));
    ElementAt(parent.elems, j, rest);
    ElementAt(parent'.elems, j', rest);
  }

  /** Removing an element moves those behind it down by one, and changes no other. */
  lemma ElementsMoveDown(doc: Json, p: Pointer, j: nat, rest: Pointer)
    requires p != [] && Get(doc, p).Ok?
    requires var parent := Get(doc, Parent(p));
             parent.Ok? && parent.value.Array? && j < |parent.value.elems| <= MAX_UINT64
             && ArrayIndex(Last(p)).Ok? && j != ArrayIndex(Last(p)).value
    ensures var i := ArrayIndex(Last(p)).value;
            && Run(doc, Remove(p)).Done?
            && Get(Run(doc, Remove(p)).doc, Parent(p) + ([Decimal(if j < i then j else j - 1)] + rest)) ==
               Get(doc, Parent(p) + ([Decimal(j)] + rest))
  {
    hide Run, Get, Put, ArrayIndex, Decimal;
    var up, i := Parent(p), ArrayIndex(Last(p)).value;
    var parent := Get(doc, up).value;
    IndexInRange(doc, p);
    RemoveResult(doc, p);
    var parent' := RemoveFromParent(parent, Last(p)).value;
    var j' := if j < i then j else j - 1;
    GetInsidePut(doc, up, parent', up + ([Decimal(j')] + rest));
    GetThrough(doc, up, up + ([Decimal(j)] + rest));
    ElementAt(parent.elems, j, rest);
    ElementAt(parent'.elems, j', rest);
  }

  /** What a completed add leaves: the document with its parent changed. */
  lemma AddResult(doc: Json, p: Pointer, v: Json)
    requires p != [] && Run(doc, Add(p, v)).Done?
    ensures Get(doc, Parent(p)).Ok?
    ensures var parent' := AddToParent(Get(doc, Parent(p)).value, Last(p), v);
            parent'.Ok? && Run(doc, Add(p, v)).doc == Put(doc, Parent(p), parent'.value)
  {
    hide Get, Put, AddToParent;
  }

  lemma RemoveResult(doc: Json, p: Pointer)
    requires p != [] && Get(doc, Parent(p)).Ok? && RemoveFromParent(Get(doc, Parent(p)).value, Last(p)).Ok?
    ensures Run(doc, Remove(p)) ==
            Done(Put(doc, Parent(p), RemoveFromParent(Get(doc, Parent(p)).value, Last(p)).value))
  {
    hide Get, Put, RemoveFromParent;
  }

  lemma IndexInRange(doc: Json, p: Pointer)
    requires p != [] && Get(doc, p).Ok? && Get(doc, Parent(p)).Ok?
    requires Get(doc, Parent(p)).value.Array? && ArrayIndex(Last(p)).Ok?
    ensures ArrayIndex(Last(p)).value < |Get(doc, Parent(p)).value.elems|
  {
    GetViaParent(doc, p);
  }

  lemma ElementAt(a: seq<Json>, j: nat, rest: Pointer)
    requires j < |a| && j < MAX_UINT64
    ensures Get(Array(a), [Decimal(j)] + rest) == Get(a[j], rest)
  {
    IndexTokens(Decimal(j), j);
    DecimalShape(j);
    assert !IsDigit('-');
    assert ([Decimal(j)] + rest)[1..] == rest;
  }

  /**
   Sections 4.3 to 4.6 of RFC 6902 by what they are made of: move is a remove and an add of
   the value removed, copy an add of the value found, replace leaves the new value in a place
   that existed, and test passes exactly when the value found equals the one given.
   */
  lemma {:induction false} OperationsByMeaning(doc: Json, from: Pointer, p: Pointer, v: Json)
    ensures Get(doc, from).Ok? ==>
              var found := Get(doc, from).value;
              && Run(doc, Move(from, p)) == RunAll(doc, [Remove(from), Add(p, found)])
              && Run(doc, Copy(from, p)) == Run(doc, Add(p, found))
    ensures Get(doc, from).Err? ==> Run(doc, Move(from, p)).Thrown? && Run(doc, Copy(from, p)).Thrown?
    ensures Run(doc, Replace(p, v)).Done? <==> Get(doc, p).Ok?
    ensures Get(doc, p).Ok? ==> Get(Run(doc, Replace(p, v)).doc, p) == Ok(v)
    ensures Run(doc, Test(p, v)).Done? <==> Get(doc, p).Ok? && Equal(Get(doc, p).value, v)
    ensures Run(doc, Test(p, v)).doc == doc
  {
    hide AddAt, RemoveAt, Put, Get, Equal;
    if Get(doc, p).Ok? { PutGet(doc, p, v); }
    if Get(doc, from).Ok? { MoveByMeaning(doc, from, p); }
  }

  lemma MoveByMeaning(doc: Json, from: Pointer, p: Pointer)
    requires Get(doc, from).Ok?
    ensures Run(doc, Move(from, p)) == RunAll(doc, [Remove(from), Add(p, Get(doc, from).value)])
  {
    hide AddAt, RemoveAt, Get;
    var found := Get(doc, from).value;
    assert [Remove(from), Add(p, found)][1..] == [Add(p, found)];
    RunOne(Run(doc, Remove(from)).doc, Add(p, found));
  }

  lemma RunOne(doc: Json, op: PatchOp)
    ensures RunAll(doc, [op]) == Run(doc, op)
  {
    hide Run;
    assert [op][1..] == [];
  }

  /** Adding further down can stop at a location on the way and go on from there. */
  lemma {:induction false} AddThrough(doc: Json, p: Pointer, rest: Pointer, v: Json)
    requires Get(doc, p).Ok? && rest != []
    ensures var c := Get(doc, p).value;
            AddAt(doc, p + rest, v) ==
            match AddAt(c, rest, v) case Err(e) => Err(e) case Ok(c') => Ok(Put(doc, p, c'))
    decreases |p|
  {
    if p == [] {
      assert p + rest == rest;
    } else {
      var q := p[1..] + rest;
      assert p + rest == [p[0]] + q;
      AddBelow(doc, p[0], q, v);
      AddThrough(Child(doc, p[0]).value, p[1..], rest, v);
    }
  }

  /** Where nothing is found, nothing can be added further down either. */
  lemma {:induction false} AddBelowMissing(doc: Json, p: Pointer, rest: Pointer, v: Json)
    requires Get(doc, p).Err? && rest != []
    ensures AddAt(doc, p + rest, v).Err?
  {
    assert Parent(p + rest) == p + Parent(rest);
    GetBelowMissing(doc, p, Parent(p + rest));
  }

  lemma {:induction false} GetBelowMissing(doc: Json, p: Pointer, q: Pointer)
    requires p <= q && Get(doc, p).Err?
    ensures Get(doc, q).Err?
    decreases |p|
  {
    if p != [] && Child(doc, p[0]).Ok? {
      assert p[1..] <= q[1..];
      GetBelowMissing(Child(doc, p[0]).value, p[1..], q[1..]);
    }
  }

  /** The location is an array element with another one behind it. */
  predicate HasSuccessor(doc: Json, from: Pointer)
    requires from != []
  {
    var parent := Get(doc, Parent(from));
    && parent.Ok? && parent.value.Array?
    && ArrayIndex(Last(from)).Ok? && ArrayIndex(Last(from)).value + 1 < |parent.value.elems|
  }

  /** What is found at an element's location once it is removed: its successor, or nothing. */
  lemma SuccessorMovesUp(doc: Json, from: Pointer)
    requires from != [] && Get(doc, from).Ok?
    ensures RemoveAt(doc, from).Ok?
    ensures var left := Get(RemoveAt(doc, from).value, from);
            if HasSuccessor(doc, from) then
              left == Ok(Get(doc, Parent(from)).value.elems[ArrayIndex(Last(from)).value + 1])
            else left.Err?
  {
    GetViaParent(doc, from);
    var parent := Get(doc, Parent(from)).value;
    PutGet(doc, Parent(from), RemoveFromParent(parent, Last(from)).value);
    GetViaParent(RemoveAt(doc, from).value, from);
  }

  /**
   Section 4.4 of RFC 6902 forbids moving a value into itself. The library notices only that
   the place is gone after the removal: such a move goes through exactly when the value is an
   array element, another one is behind it, and the rest of the path can be added in that
   one. That is where the value ends up.
   */
  lemma {:induction false} MoveIntoItselfSucceedsExactlyWhen(doc: Json, from: Pointer, rest: Pointer)
    requires from != [] && rest != []
    ensures Run(doc, Move(from, from + rest)).Done? <==>
            && HasSuccessor(doc, from)
            && var a, i := Get(doc, Parent(from)).value.elems, ArrayIndex(Last(from)).value;
            Run(a[i + 1], Add(rest, a[i])).Done?
    ensures Run(doc, Move(from, from + rest)).Done? ==>
              var a, i := Get(doc, Parent(from)).value.elems, ArrayIndex(Last(from)).value;
              Get(Run(doc, Move(from, from + rest)).doc, from) == Ok(Run(a[i + 1], Add(rest, a[i])).doc)
  {
    hide Get, Put, AddAt, RemoveAt;
    GetViaParent(doc, from);
    if Get(doc, from).Ok? {
      SuccessorMovesUp(doc, from);
      var v, doc' := Get(doc, from).value, RemoveAt(doc, from).value;
      if HasSuccessor(doc, from) {
        AddThrough(doc', from, rest, v);
        var c := Get(doc', from).value;
        if AddAt(c, rest, v).Ok? { PutGet(doc', from, AddAt(c, rest, v).value); }
      } else {
        AddBelowMissing(doc', from, rest, v);
      }
    } else {
      NoSuccessorOfNothing(doc, from);
    }
  }

  lemma NoSuccessorOfNothing(doc: Json, from: Pointer)
    requires from != [] && Get(doc, from).Err?
    ensures !HasSuccessor(doc, from)
  {
    GetViaParent(doc, from);
    assert ArrayIndex("-").Err?;
  }

  /** Moving the first element below itself lands it in its neighbour. */
  lemma MoveIntoItselfCanSucceed()
    ensures var a, b := Object(map[]), Object(map["k" := Null]);
            Run(Array([a, b]), Move(["0"], ["0", "x"])) == Done(Array([Object(map["k" := Null, "x" := a])]))
  {
    hide Get, Put, AddAt, RemoveAt;
    var a, b := Object(map[]), Object(map["k" := Null]);
    FirstRemoved(a, b);
    AddedInFirst(b.members, "x", a);
    assert b.members["x" := a] == map["k" := Null, "x" := a];
  }

  lemma FirstRemoved(a: Json, b: Json)
    ensures Get(Array([a, b]), ["0"]) == Ok(a) && RemoveAt(Array([a, b]), ["0"]) == Ok(Array([b]))
  {
    assert Decimal(0) == "0";
    IndexTokens("0", 0);
    assert Parent(["0"]) == [] && ["0"][1..] == [];
    assert [a, b][..0] + [a, b][1..] == [b];
  }

  lemma AddedInFirst(m: map<string, Json>, k: string, v: Json)
    ensures AddAt(Array([Object(m)]), ["0", k], v) == Ok(Array([Object(m[k := v])]))
  {
    hide Get, Put, AddAt;
    var doc := Array([Object(m)]);
    assert Decimal(0) == "0";
    IndexTokens("0", 0);
    AddBelow(doc, "0", [k], v);
    assert ["0"] + [k] == ["0", k];
    AddedHere(m, k, v);
    assert [Object(m)][0 := Object(m[k := v])] == [Object(m[k := v])];
  }

  lemma AddedHere(m: map<string, Json>, k: string, v: Json)
    ensures AddAt(Object(m), [k], v) == Ok(Object(m[k := v]))
  {
    assert Parent([k]) == [];
  }

  // ---------------------------------------------------------------- the document object

  class Document {
    var root: Json

    constructor (j: Json)
      ensures root == j
    {
      root := j;
    }

    /** `at(ptr)`: the `get_checked` loop. */
    method At(p: Pointer) returns (r: Result<Json, Error>)
      ensures r == Get(root, p)
    {
      var j := root;
      for i := 0 to |p|
        invariant Get(root, p) == Get(j, p[i..])
      {
        var c := Child(j, p[i]);
        assert p[i..][1..] == p[i + 1..];
        if c.Err? {
          return Err(c.error);
        }
        j := c.value;
      }
      return Ok(j);
    }

    method OperationAdd(p: Pointer, v: Json) returns (thrown: Option<Error>)
      modifies this
      ensures AsOutcome(root, thrown) == FromResult(old(root), AddAt(old(root), p, v))
    {
      if p == [] {
        root := v;
        return None;
      }
      if |p| > 1 {
        var top := At(p[..1]);
        if top.Err? { return Some(top.error); }
      }
      var parent := At(Parent(p));
      if parent.Err? { return Some(parent.error); }
      var parent' := AddToParent(parent.value, Last(p), v);
      if parent'.Err? { return Some(parent'.error); }
      root := Put(root, Parent(p), parent'.value);
      return None;
    }

    method OperationRemove(p: Pointer) returns (thrown: Option<Error>)
      modifies this
      ensures AsOutcome(root, thrown) == FromResult(old(root), RemoveAt(old(root), p))
    {
      if p == [] { return Some(OutOfRange(405)); }
      var parent := At(Parent(p));
      if parent.Err? { return Some(parent.error); }
      var parent' := RemoveFromParent(parent.value, Last(p));
      if parent'.Err? { return Some(parent'.error); }
      root := Put(root, Parent(p), parent'.value);
      return None;
    }

    method RunOperation(op: PatchOp) returns (thrown: Option<Error>)
      modifies this
      ensures AsOutcome(root, thrown) == Run(old(root), op)
    {
      match op
      case Add(p, v) =>
        thrown := OperationAdd(p, v);
      case Remove(p) =>
        thrown := OperationRemove(p);
      case Replace(p, v) =>
        var found := At(p);
        if found.Err? { return Some(found.error); }
        root := Put(root, p, v);
        return None;
      case Move(from, p) =>
        var v := At(from);
        if v.Err? { return Some(v.error); }
        thrown := OperationRemove(from);
        if thrown.None? {
          thrown := OperationAdd(p, v.value);
        }
      case Copy(from, p) =>
        var v := At(from);
        if v.Err? { return Some(v.error); }
        thrown := OperationAdd(p, v.value);
      case Test(p, v) =>
        var found := At(p);
        if found.Err? {
          return Some(if found.error.OutOfRange? then OtherError(501) else found.error);
        }
        return if Equal(found.value, v) then None else Some(OtherError(501));
    }

    /** `patch_inplace`: a throwing operation stops the run and the document keeps what was done. */
    method PatchInplace(patch: Json) returns (thrown: Option<Error>)
      modifies this
      ensures AsOutcome(root, thrown) == ApplyPatch(old(root), patch)
    {
      if !patch.Array? {
        return Some(ParseError(104));
      }
      for i := 0 to |patch.elems|
        invariant ApplyAll(old(root), patch.elems) == ApplyAll(root, patch.elems[i..])
      {
        assert patch.elems[i..][1..] == patch.elems[i + 1..];
        var op := Decode(patch.elems[i]);
        if op.Err? {
          return Some(op.error);
        }
        thrown := RunOperation(op.value);
        if thrown.Some? {
          return;
        }
      }
      return None;
    }

    /** `patch`: works on a copy, so this document is unchanged whatever happens. */
    method Patch(patch: Json) returns (r: Result<Json, Error>)
      ensures r == match ApplyPatch(root, patch) case Done(d) => Ok(d) case Thrown(_, e) => Err(e)
    {
      var copy := new Document(root);
      var thrown := copy.PatchInplace(patch);
      return if thrown.Some? then Err(thrown.value) else Ok(copy.root);
    }
  }

  function AsOutcome(doc: Json, thrown: Option<Error>): Outcome {
    match thrown
    case None => Done(doc)
    case Some(e) => Thrown(doc, e)
  }
}
