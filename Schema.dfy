/**
 * What the factory's constructor builds from a template before it registers
 * anything: the annotation list and, from the textual field list, the field
 * descriptors and the name-to-position index.
 */
module Schema {
  import opened Wrappers
  import opened JavaText
  import opened Catalog

  /** `JfrEvent.Template`: every getter the constructor reads; `None` stands for `null`. */
  datatype Template = Template(
    name: string,
    labelText: Option<string>,
    description: Option<string>,
    category: Option<string>,
    period: Option<string>,
    stacktrace: bool,
    fields: string,
    owner: Option<string>,
    periodicHandler: Option<string>)

  /** One `AnnotationElement` of the event type's definition. */
  datatype Annotation =
    | Name(value: string)
    | Registered(flag: bool)
    | StackTrace(flag: bool)
    | Label(value: string)
    | Description(value: string)
    | Category(value: string)
    | Period(value: string)

  /** The place each kind of annotation takes in the definition. */
  function Rank(a: Annotation): nat
  {
    match a
    case Name(_) => 0
    case Registered(_) => 1
    case StackTrace(_) => 2
    case Label(_) => 3
    case Description(_) => 4
    case Category(_) => 5
    case Period(_) => 6
  }

  /** One for a value the template sets, none for `null`. */
  function PresentCount(o: Option<string>): nat
  {
    if o.Some? then 1 else 0
  }

  /** How many of label, description, category and period the template sets. */
  function OptionalCount(t: Template): nat
  {
    PresentCount(t.labelText) + PresentCount(t.description) + PresentCount(t.category) + PresentCount(t.period)
  }

  /** The four annotations a template may leave out. */
  datatype OptionalKind = LabelKind | DescriptionKind | CategoryKind | PeriodKind

  /** The annotation of kind `k` carrying the value `v`. */
  function OptionalAnnotation(k: OptionalKind, v: string): Annotation
  {
    match k
    case LabelKind => Label(v)
    case DescriptionKind => Description(v)
    case CategoryKind => Category(v)
    case PeriodKind => Period(v)
  }

  /** The element an optional template value contributes: present when set, absent when `null`. */
  function Optional(o: Option<string>, k: OptionalKind): (piece: seq<Annotation>)
    ensures |piece| == PresentCount(o)
    ensures forall x :: x in piece <==> o.Some? && x == OptionalAnnotation(k, o.value)
  {
    if o.Some? then [OptionalAnnotation(k, o.value)] else []
  }

  /** The three annotations every event type carries. */
  function Mandatory(t: Template): seq<Annotation>
  {
    [Name(t.name), Registered(true), StackTrace(t.stacktrace)]
  }

  /**
   * The annotation list handed to `EventFactory.create`: name, registered and
   * stack-trace flag first, then at most the four optional annotations.
   */
  function Annotations(t: Template): (r: seq<Annotation>)
    ensures 3 <= |r| <= 7
    ensures r[0] == Name(t.name) && r[1] == Registered(true) && r[2] == StackTrace(t.stacktrace)
  {
    Mandatory(t)
      + Optional(t.labelText, LabelKind)
      + Optional(t.description, DescriptionKind)
      + Optional(t.category, CategoryKind)
      + Optional(t.period, PeriodKind)
  }

  /** Kinds appear in strictly increasing `Rank`: in the fixed order, none twice. */
  ghost predicate RankSorted(s: seq<Annotation>)
  {
    forall i, j :: 0 <= i < j < |s| ==> Rank(s[i]) < Rank(s[j])
  }

  /** Appending at most one annotation of rank `k` after annotations ranked below `k` keeps the order. */
  lemma AppendRanked(a: seq<Annotation>, b: seq<Annotation>, k: nat)
    requires RankSorted(a) && forall x :: x in a ==> Rank(x) < k
    requires |b| <= 1 && forall y :: y in b ==> Rank(y) == k
    ensures RankSorted(a + b) && forall x :: x in a + b ==> Rank(x) <= k
  {
    if |b| == 1 {
      assert (a + b)[|a|] == b[0];
      assert forall i :: 0 <= i < |a| ==> (a + b)[i] == a[i];
    } else {
      assert a + b == a;
    }
  }

  /**
   * The annotation list of an event type starts with name, registered (always
   * true) and stack-trace flag, in that order, and has three entries plus one
   * per optional value the template sets.
   */
  lemma AnnotationsShape(t: Template)
    ensures |Annotations(t)| == 3 + OptionalCount(t)
    ensures Annotations(t)[..3] == [Name(t.name), Registered(true), StackTrace(t.stacktrace)]
  {
    var m := Mandatory(t);
    var rest := Optional(t.labelText, LabelKind) + Optional(t.description, DescriptionKind)
      + Optional(t.category, CategoryKind) + Optional(t.period, PeriodKind);
    assert |rest| == OptionalCount(t);
    assert Annotations(t) == m + rest;
    assert (m + rest)[..3] == m;
  }

  /**
   * The kinds in the annotation list never repeat and keep the order name,
   * registered, stack trace, label, description, category, period.
   */
  lemma AnnotationsOrder(t: Template)
    ensures RankSorted(Annotations(t))
  {
    var m := Mandatory(t);
    var l := Optional(t.labelText, LabelKind);
    var d := Optional(t.description, DescriptionKind);
    var c := Optional(t.category, CategoryKind);
    var p := Optional(t.period, PeriodKind);
    assert RankSorted(m) && forall x :: x in m ==> Rank(x) < 3;
    AppendRanked(m, l, 3);
    AppendRanked(m + l, d, 4);
    AppendRanked(m + l + d, c, 5);
    AppendRanked(m + l + d + c, p, 6);
  }

  /** An optional annotation is in the list exactly when its own piece holds it. */
  lemma AnnotationsMember(t: Template, k: OptionalKind, v: string)
    ensures OptionalAnnotation(k, v) in Annotations(t) <==> OptionalAnnotation(k, v) in Optional(Value(t, k), k)
  {
    var x := OptionalAnnotation(k, v);
    var m := Mandatory(t);
    assert x !in m;
    var l, d, c, p := Optional(t.labelText, LabelKind), Optional(t.description, DescriptionKind),
      Optional(t.category, CategoryKind), Optional(t.period, PeriodKind);
    assert Annotations(t) == m + l + d + c + p;
    assert x in Annotations(t) <==> x in m || x in l || x in d || x in c || x in p;
  }

  /** The template value an optional kind is built from. */
  function Value(t: Template, k: OptionalKind): Option<string>
  {
    match k
    case LabelKind => t.labelText
    case DescriptionKind => t.description
    case CategoryKind => t.category
    case PeriodKind => t.period
  }

  /** Label, description, category and period each appear, with the template's value, exactly when the template sets them. */
  lemma AnnotationsPresence(t: Template)
    ensures forall v :: Label(v) in Annotations(t) <==> t.labelText == Some(v)
    ensures forall v :: Description(v) in Annotations(t) <==> t.description == Some(v)
    ensures forall v :: Category(v) in Annotations(t) <==> t.category == Some(v)
    ensures forall v :: Period(v) in Annotations(t) <==> t.period == Some(v)
  {
    forall v ensures Label(v) in Annotations(t) <==> t.labelText == Some(v) {
      AnnotationsMember(t, LabelKind, v);
    }
    forall v ensures Description(v) in Annotations(t) <==> t.description == Some(v) {
      AnnotationsMember(t, DescriptionKind, v);
    }
    forall v ensures Category(v) in Annotations(t) <==> t.category == Some(v) {
      AnnotationsMember(t, CategoryKind, v);
    }
    forall v ensures Period(v) in Annotations(t) <==> t.period == Some(v) {
      AnnotationsMember(t, PeriodKind, v);
    }
  }

  /** The constructor's `defAnnotations.add` sequence. */
  method BuildAnnotations(t: Template) returns (defAnnotations: seq<Annotation>)
    ensures defAnnotations == Annotations(t)
  {
    defAnnotations := [];
    defAnnotations := defAnnotations + [Name(t.name)];
    defAnnotations := defAnnotations + [Registered(true)];
    defAnnotations := defAnnotations + [StackTrace(t.stacktrace)];
    assert defAnnotations == Mandatory(t);
    if t.labelText.Some? {
      defAnnotations := defAnnotations + [Label(t.labelText.value)];
    }
    assert defAnnotations == Mandatory(t) + Optional(t.labelText, LabelKind);
    ghost var upToLabel := defAnnotations;
    if t.description.Some? {
      defAnnotations := defAnnotations + [Description(t.description.value)];
    }
    assert defAnnotations == upToLabel + Optional(t.description, DescriptionKind);
    ghost var upToDescription := defAnnotations;
    if t.category.Some? {
      defAnnotations := defAnnotations + [Category(t.category.value)];
    }
    assert defAnnotations == upToDescription + Optional(t.category, CategoryKind);
    ghost var upToCategory := defAnnotations;
    if t.period.Some? {
      defAnnotations := defAnnotations + [Period(t.period.value)];
    }
    assert defAnnotations == upToCategory + Optional(t.period, PeriodKind);
  }

  // ---------------------------------------------------------------------------
  // Field list
  // ---------------------------------------------------------------------------

  /** A `ValueDescriptor`: the looked-up kind (`None` for the `null` of an unknown type name) and the field name. */
  datatype ValueDescriptor = ValueDescriptor(kind: Option<ValueKind>, name: string)

  /** The one exception the split on line 73 raises: `ArrayIndexOutOfBoundsException` on the split parts. */
  datatype FieldLoopException = ArrayIndexOutOfBounds(index: nat, length: nat)

  /** The constructor's `defFields` and `fieldIndex` once the loop has run. */
  datatype FieldSchema = FieldSchema(descriptors: seq<ValueDescriptor>, fieldIndex: map<string, nat>)

  /** The delimiter set of `new StringTokenizer(fields, ",")`. */
  const FieldSeparators: set<char> := {','}

  /**
   * One loop iteration on one comma token: trim, split on `\s+`, look up part
   * 0, name part 1. A failure is an index past the end of the split; a field
   * name is a non-empty word.
   */
  function ParseToken(token: string): (r: Result<ValueDescriptor, FieldLoopException>)
    ensures r.Failure? ==> r.error.index >= r.error.length
    ensures r.Success? ==> r.value.name != [] && NoWhitespace(r.value.name)
  {
    var typeName := SplitWhitespace(Trim(token));
    if |typeName| == 0 then Failure(ArrayIndexOutOfBounds(0, 0))
    else if |typeName| == 1 then Failure(ArrayIndexOutOfBounds(1, 1))
    else
      SplitTrimmed(Trim(token));
      assert typeName[1] in typeName;
      Success(ValueDescriptor(TypeOf(typeName[0]), typeName[1]))
  }

  /**
   * A token fails exactly when, once trimmed, it holds no whitespace (it is
   * empty or one word); the failure is always index 1 of a one-element split.
   * A token that parses takes its kind from the first part and its name from
   * the second; parts after the second are ignored.
   */
  lemma ParseTokenCases(token: string)
    ensures ParseToken(token).Failure? <==> NoWhitespace(Trim(token))
    ensures ParseToken(token).Failure? ==> ParseToken(token).error == ArrayIndexOutOfBounds(1, 1)
    ensures ParseToken(token).Success? ==>
      var parts := SplitWhitespace(Trim(token));
      |parts| >= 2 && ParseToken(token).value == ValueDescriptor(TypeOf(parts[0]), parts[1])
  {
    var u := Trim(token);
    SplitTrimmed(u);
    var parts := SplitWhitespace(u);
    if |parts| >= 2 {
      var k :| 0 <= k < |u| && u[k] in WhitespaceChars;
      assert u[k] in u;
    } else {
      forall c | c in u ensures c !in WhitespaceChars {
        var k :| 0 <= k < |u| && u[k] == c;
      }
    }
  }

  /**
   * A token that parses declares the first word of its trimmed form as type
   * and the second as name, however many blanks, tabs or line breaks separate
   * them; further words are ignored.
   */
  lemma ParseTokenWords(token: string)
    requires ParseToken(token).Success?
    ensures var words := Tokens(Trim(token), WhitespaceChars);
      |words| >= 2 && ParseToken(token).value == ValueDescriptor(TypeOf(words[0]), words[1])
  {
    var u := Trim(token);
    assert u != [];
    SplitIsWords(u);
  }

  /** `f` applied to each element, in order. */
  function MapSeq<A, B>(f: A -> B, xs: seq<A>): (ys: seq<B>)
    ensures |ys| == |xs|
    ensures forall i :: 0 <= i < |xs| ==> ys[i] == f(xs[i])
  {
    seq(|xs|, i requires 0 <= i < |xs| => f(xs[i]))
  }

  lemma MapSeqAppend<A, B>(f: A -> B, a: seq<A>, b: seq<A>)
    ensures MapSeq(f, a + b) == MapSeq(f, a) + MapSeq(f, b)
  {
    assert forall i :: 0 <= i < |a| ==> (a + b)[i] == a[i];
    assert forall i :: |a| <= i < |a + b| ==> (a + b)[i] == b[i - |a|];
  }

  /** Each token's outcome, in order. */
  function Parsed(tokens: seq<string>): (results: seq<Result<ValueDescriptor, FieldLoopException>>)
    ensures |results| == |tokens|
  {
    MapSeq(ParseToken, tokens)
  }

  /** The values of the outcomes in order, or the first failure: one loop run to completion or to its exception. */
  function Collect<T, E>(results: seq<Result<T, E>>): (r: Result<seq<T>, E>)
    ensures r.Success? <==> forall i :: 0 <= i < |results| ==> results[i].Success?
    ensures r.Success? ==> |r.value| == |results|
    ensures r.Success? ==> forall i :: 0 <= i < |results| ==> r.value[i] == results[i].value
    ensures r.Failure? ==> exists i :: 0 <= i < |results| && results[i] == Failure(r.error)
    decreases |results|
  {
    if results == [] then Success([])
    else
      var init := results[..|results| - 1];
      assert forall i :: 0 <= i < |init| ==> init[i] == results[i];
      match Collect(init)
      case Failure(e) => Failure(e)
      case Success(vs) =>
        match results[|results| - 1]
        case Failure(e) => Failure(e)
        case Success(v) => Success(vs + [v])
  }

  /** Once an outcome has failed, later outcomes change nothing: the exception ends the loop. */
  lemma {:induction false} FailureStops<T, E>(results: seq<Result<T, E>>, more: seq<Result<T, E>>)
    requires Collect(results).Failure?
    ensures Collect(results + more) == Collect(results)
    decreases |more|
  {
    if more != [] {
      var init := more[..|more| - 1];
      FailureStops(results, init);
      assert (results + more)[..|results + more| - 1] == results + init;
    } else {
      assert results + more == results;
    }
  }

  /** The tokens' descriptors in order, or the first failing token's exception. */
  function ParseTokens(tokens: seq<string>): Result<seq<ValueDescriptor>, FieldLoopException>
  {
    Collect(Parsed(tokens))
  }

  /** The field names, in declaration order. */
  function Names(descriptors: seq<ValueDescriptor>): (names: seq<string>)
    ensures |names| == |descriptors|
  {
    seq(|descriptors|, i requires 0 <= i < |descriptors| => descriptors[i].name)
  }

  /**
   * The map `fieldIndex.put(name, counter++)` leaves after the names in order:
   * its keys are exactly the names, and each maps to the LAST position that
   * holds it (a later duplicate overwrites an earlier one).
   */
  function IndexMap(names: seq<string>): (m: map<string, nat>)
    ensures forall n :: n in m <==> n in names
    ensures forall n :: n in m ==> m[n] < |names| && names[m[n]] == n
    ensures forall n, j :: n in m && m[n] < j < |names| ==> names[j] != n
    decreases |names|
  {
    if names == [] then map[]
    else
      var init := names[..|names| - 1];
      assert forall i :: 0 <= i < |init| ==> init[i] == names[i];
      assert names == init + [names[|names| - 1]];
      IndexMap(init)[names[|names| - 1] := |names| - 1]
  }

  /** No name is declared twice. */
  predicate Distinct(names: seq<string>)
  {
    forall i, j :: 0 <= i < j < |names| ==> names[i] != names[j]
  }

  /** With distinct names the i-th name maps to i, and the positions are exactly 0 .. n-1. */
  lemma IndexOfDistinct(names: seq<string>)
    requires Distinct(names)
    ensures forall i :: 0 <= i < |names| ==> IndexMap(names)[names[i]] == i
    ensures forall v: nat :: v in IndexMap(names).Values <==> v < |names|
  {
    var m := IndexMap(names);
    forall i | 0 <= i < |names|
      ensures names[i] in m && m[names[i]] == i
    {
      assert names[i] in names;
    }
    forall v | v in m.Values
      ensures v < |names|
    {
      var n :| n in m && m[n] == v;
    }
    forall v: nat | v < |names|
      ensures v in m.Values
    {
      assert m[names[v]] == v;
    }
  }

  /**
   * A name declared at positions i < j: both descriptors stay in the list,
   * and the index holds a position at or after j, never i.
   */
  lemma DuplicateLastWins(names: seq<string>, i: nat, j: nat)
    requires i < j < |names| && names[i] == names[j]
    ensures names[i] in IndexMap(names)
    ensures IndexMap(names)[names[i]] >= j
    ensures IndexMap(names)[names[i]] != i
  {
    assert names[j] in names;
  }

  /**
   * The whole loop: tokens of the field list, their descriptors, and the index
   * of their names. There is one descriptor per comma token, and a failure is
   * an index past the end of a split.
   */
  function ParseSpec(fields: string): (r: Result<FieldSchema, FieldLoopException>)
    ensures r.Success? ==> |r.value.descriptors| == |Tokens(fields, FieldSeparators)|
    ensures r.Failure? ==> r.error.index >= r.error.length
  {
    match ParseTokens(Tokens(fields, FieldSeparators))
    case Failure(e) => Failure(e)
    case Success(ds) => Success(FieldSchema(ds, IndexMap(Names(ds))))
  }

  /** Parsing a token list succeeds exactly when each token does, and then yields each token's descriptor in order. */
  lemma ParseTokensCases(tokens: seq<string>)
    ensures ParseTokens(tokens).Success? <==> forall i :: 0 <= i < |tokens| ==> ParseToken(tokens[i]).Success?
    ensures ParseTokens(tokens).Success? ==>
      && |ParseTokens(tokens).value| == |tokens|
      && forall i :: 0 <= i < |tokens| ==> ParseTokens(tokens).value[i] == ParseToken(tokens[i]).value
    ensures ParseTokens(tokens).Failure? ==> ParseTokens(tokens).error == ArrayIndexOutOfBounds(1, 1)
  {
    assert forall i :: 0 <= i < |tokens| ==> Parsed(tokens)[i] == ParseToken(tokens[i]);
    if ParseTokens(tokens).Failure? {
      var i :| 0 <= i < |tokens| && Parsed(tokens)[i] == Failure(ParseTokens(tokens).error);
      ParseTokenCases(tokens[i]);
    }
  }

  /**
   * Parsing succeeds exactly when every comma token parses; then there is one
   * descriptor per token, in order, and the index has exactly the declared
   * names as keys, each at a position that holds it.
   */
  lemma ParseSpecFields(fields: string)
    ensures var tokens := Tokens(fields, FieldSeparators);
      ParseSpec(fields).Success? <==> forall i :: 0 <= i < |tokens| ==> ParseToken(tokens[i]).Success?
    ensures var tokens := Tokens(fields, FieldSeparators);
      ParseSpec(fields).Success? ==>
        var s := ParseSpec(fields).value;
        && |s.descriptors| == |tokens|
        && (forall i :: 0 <= i < |tokens| ==> s.descriptors[i] == ParseToken(tokens[i]).value)
        && (forall n :: n in s.fieldIndex <==> n in Names(s.descriptors))
        && (forall n :: n in s.fieldIndex ==> s.fieldIndex[n] < |s.descriptors| && s.descriptors[s.fieldIndex[n]].name == n)
    ensures ParseSpec(fields).Failure? ==> ParseSpec(fields).error == ArrayIndexOutOfBounds(1, 1)
  {
    var tokens := Tokens(fields, FieldSeparators);
    ParseTokensCases(tokens);
    SpecOfTokens(fields);
  }

  /** `ParseSpec` passes on the token list's failure, or builds the schema of its descriptors. */
  lemma SpecOfTokens(fields: string)
    ensures var parsed := ParseTokens(Tokens(fields, FieldSeparators));
      && (ParseSpec(fields).Success? <==> parsed.Success?)
      && (parsed.Failure? ==> ParseSpec(fields).error == parsed.error)
      && (parsed.Success? ==> ParseSpec(fields).value == FieldSchema(parsed.value, IndexMap(Names(parsed.value))))
  {
  }

  /** The outcomes of two token lists joined are the two outcome lists joined. */
  lemma ParsedAppend(a: seq<string>, b: seq<string>)
    ensures Parsed(a + b) == Parsed(a) + Parsed(b)
  {
    MapSeqAppend(ParseToken, a, b);
  }

  /** One more token adds its outcome at the end. */
  lemma ParsedSnoc(done: seq<string>, token: string)
    ensures Parsed(done + [token]) == Parsed(done) + [ParseToken(token)]
  {
    ParsedAppend(done, [token]);
    assert Parsed([token])[0] == ParseToken(token);
  }

  /** A failed outcome after successful ones ends collection with its error, whatever follows. */
  lemma CollectFailsAt<T, E>(before: seq<Result<T, E>>, x: Result<T, E>, after: seq<Result<T, E>>)
    requires Collect(before).Success? && x.Failure?
    ensures Collect(before + [x] + after) == Failure(x.error)
  {
    assert (before + [x])[..|before|] == before;
    FailureStops(before + [x], after);
  }

  /** A successful outcome appends its value. */
  lemma CollectSucceedsAt<T, E>(before: seq<Result<T, E>>, x: Result<T, E>)
    requires Collect(before).Success? && x.Success?
    ensures Collect(before + [x]) == Success(Collect(before).value + [x.value])
  {
    assert (before + [x])[..|before|] == before;
  }

  /** Moving the head of `b` to the end of `a` keeps the concatenation. */
  lemma ShiftHead<T>(a: seq<T>, b: seq<T>)
    requires b != []
    ensures a + [b[0]] + b[1..] == a + b
  {
    assert b == [b[0]] + b[1..];
  }

  /** Appending a descriptor records its name at the next position. */
  lemma IndexMapSnoc(defFields: seq<ValueDescriptor>, d: ValueDescriptor)
    ensures IndexMap(Names(defFields + [d])) == IndexMap(Names(defFields))[d.name := |defFields|]
  {
    assert Names(defFields + [d]) == Names(defFields) + [d.name];
    assert Names(defFields + [d])[..|defFields|] == Names(defFields);
  }

  /** The constructor's field loop, run against a `StringTokenizer`. */
  method ParseFields(fields: string) returns (r: Result<FieldSchema, FieldLoopException>)
    ensures r == ParseSpec(fields)
  {
    var defFields: seq<ValueDescriptor> := [];
    var fieldIndex: map<string, nat> := map[];
    var counter := 0;
    var tokenizer := new StringTokenizer(fields, FieldSeparators);
    ghost var done: seq<string> := [];
    var more := tokenizer.HasMoreTokens();
    while more
      invariant tokenizer.Valid() && tokenizer.str == fields && tokenizer.delims == FieldSeparators
      invariant done + tokenizer.Remaining() == Tokens(fields, FieldSeparators)
      invariant more <==> tokenizer.Remaining() != []
      invariant Collect(Parsed(done)) == Success(defFields)
      invariant fieldIndex == IndexMap(Names(defFields))
      invariant counter == |defFields|
      decreases |tokenizer.Remaining()|
    {
      ghost var rest := tokenizer.Remaining();
      var nextToken := tokenizer.NextToken();
      nextToken := Trim(nextToken);
      var typeName := SplitWhitespace(nextToken);
      if |typeName| < 2 {
        r := Failure(ArrayIndexOutOfBounds(if |typeName| == 0 then 0 else 1, |typeName|));
        ShiftHead(done, rest);
        ParsedSnoc(done, rest[0]);
        ParsedAppend(done + [rest[0]], rest[1..]);
        CollectFailsAt(Parsed(done), ParseToken(rest[0]), Parsed(rest[1..]));
        return;
      }
      var d := ValueDescriptor(TypeOf(typeName[0]), typeName[1]);
      ParsedSnoc(done, rest[0]);
      CollectSucceedsAt(Parsed(done), ParseToken(rest[0]));
      IndexMapSnoc(defFields, d);
      defFields := defFields + [d];
      fieldIndex := fieldIndex[typeName[1] := counter];
      counter := counter + 1;
      ShiftHead(done, rest);
      done := done + [rest[0]];
      more := tokenizer.HasMoreTokens();
    }
    assert done == Tokens(fields, FieldSeparators);
    r := Success(FieldSchema(defFields, fieldIndex));
  }

  // ---------------------------------------------------------------------------
  // Round trip: a field list written as `type name, type name, ...`
  // ---------------------------------------------------------------------------

  /** One `<type> <name>` entry of a field list. */
  datatype Declaration = Declaration(typeName: string, name: string)

  /** A non-empty run of characters above U+0020 other than the comma. */
  predicate IsWord(w: string)
  {
    w != [] && forall c :: c in w ==> !IsTrimmable(c) && c !in FieldSeparators
  }

  predicate WellFormed(decls: seq<Declaration>)
  {
    forall d :: d in decls ==> IsWord(d.typeName) && IsWord(d.name)
  }

  function DeclText(d: Declaration): string
  {
    d.typeName + " " + d.name
  }

  /** The field list a template author writes for `decls`: entries joined by `, `. */
  function Render(decls: seq<Declaration>): string
  {
    if |decls| == 0 then ""
    else if |decls| == 1 then DeclText(decls[0])
    else Render(decls[..|decls| - 1]) + ", " + DeclText(decls[|decls| - 1])
  }

  /** The tokens the tokenizer hands out for `Render(decls)`: every entry after the first keeps its leading space. */
  function RenderedTokens(decls: seq<Declaration>): (ts: seq<string>)
    ensures |ts| == |decls|
  {
    if |decls| == 0 then []
    else if |decls| == 1 then [DeclText(decls[0])]
    else RenderedTokens(decls[..|decls| - 1]) + [" " + DeclText(decls[|decls| - 1])]
  }

  /** The descriptors the template author means by `decls`. */
  function Declared(decls: seq<Declaration>): seq<ValueDescriptor>
  {
    MapSeq((d: Declaration) => ValueDescriptor(TypeOf(d.typeName), d.name), decls)
  }

  lemma {:induction false} RenderTokens(decls: seq<Declaration>)
    requires WellFormed(decls)
    ensures Tokens(Render(decls), FieldSeparators) == RenderedTokens(decls)
    decreases |decls|
  {
    if |decls| == 1 {
      assert decls[0] in decls;
      assert "" + DeclText(decls[0]) == DeclText(decls[0]);
      WordEntryIsToken(decls[0], "");
    } else if |decls| > 1 {
      var init := decls[..|decls| - 1];
      var last := decls[|decls| - 1];
      assert forall d :: d in init ==> d in decls;
      assert last in decls;
      RenderTokens(init);
      assert Render(decls) == Render(init) + [','] + (" " + DeclText(last));
      TokensOfJoin(Render(init), ',', " " + DeclText(last), FieldSeparators);
      WordEntryIsToken(last, " ");
    }
  }

  lemma WordEntryIsToken(d: Declaration, lead: string)
    requires IsWord(d.typeName) && IsWord(d.name)
    requires lead == "" || lead == " "
    ensures Tokens(lead + DeclText(d), FieldSeparators) == [lead + DeclText(d)]
  {
    var w := lead + DeclText(d);
    forall c | c in w ensures c !in FieldSeparators {
      if c !in lead && c !in d.typeName { assert c in " " + d.name; }
    }
    SingleToken(w, FieldSeparators);
  }

  /** An entry, with or without the space after its comma, parses back to its declaration. */
  lemma EntryParses(d: Declaration)
    requires IsWord(d.typeName) && IsWord(d.name)
    ensures ParseToken(DeclText(d)) == Success(ValueDescriptor(TypeOf(d.typeName), d.name))
    ensures ParseToken(" " + DeclText(d)) == Success(ValueDescriptor(TypeOf(d.typeName), d.name))
  {
    assert d.typeName[0] in d.typeName;
    assert d.name[|d.name| - 1] in d.name;
    TrimEntry(d);
    SplitEntry(d);
    ParseTrimmedPair(DeclText(d), d.typeName, d.name);
    ParseTrimmedPair(" " + DeclText(d), d.typeName, d.name);
  }

  lemma TrimEntry(d: Declaration)
    requires d.typeName != [] && !IsTrimmable(d.typeName[0])
    requires d.name != [] && !IsTrimmable(d.name[|d.name| - 1])
    ensures Trim(DeclText(d)) == DeclText(d)
    ensures Trim(" " + DeclText(d)) == DeclText(d)
  {
    var u := DeclText(d);
    assert u[0] == d.typeName[0];
    assert u[|u| - 1] == d.name[|d.name| - 1];
    TrimPadded(u);
  }

  lemma SplitEntry(d: Declaration)
    requires IsWord(d.typeName) && IsWord(d.name)
    ensures SplitWhitespace(DeclText(d)) == [d.typeName, d.name]
  {
    WordHasNoWhitespace(d.typeName);
    WordHasNoWhitespace(d.name);
    SplitPair(d.typeName, d.name);
  }

  lemma ParseTrimmedPair(token: string, t: string, n: string)
    requires SplitWhitespace(Trim(token)) == [t, n]
    ensures ParseToken(token) == Success(ValueDescriptor(TypeOf(t), n))
  {
  }

  lemma WordHasNoWhitespace(w: string)
    requires IsWord(w)
    ensures NoWhitespace(w)
  {
    WhitespaceIsTrimmable();
  }

  /**
   * Writing well-formed declarations as `type name, type name, ...` and
   * parsing the text gives back one descriptor per declaration, in order, each
   * with the catalog kind of its type name and its own name; the index is that
   * of the declared names.
   */
  lemma {:induction false} ParseRendered(decls: seq<Declaration>)
    requires WellFormed(decls)
    ensures ParseSpec(Render(decls)) == Success(FieldSchema(Declared(decls), IndexMap(Names(Declared(decls)))))
  {
    RenderTokens(decls);
    var tokens := RenderedTokens(decls);
    forall i | 0 <= i < |decls|
      ensures ParseToken(tokens[i]) == Success(Declared(decls)[i])
    {
      RenderedTokenAt(decls, i);
      assert decls[i] in decls;
      EntryParses(decls[i]);
    }
    ParseTokensCases(tokens);
    assert ParseTokens(tokens).value == Declared(decls);
  }

  lemma {:induction false} RenderedTokenAt(decls: seq<Declaration>, i: nat)
    requires i < |decls|
    ensures i == 0 ==> RenderedTokens(decls)[i] == DeclText(decls[i])
    ensures i > 0 ==> RenderedTokens(decls)[i] == " " + DeclText(decls[i])
    decreases |decls|
  {
    if |decls| > 1 && i < |decls| - 1 {
      RenderedTokenAt(decls[..|decls| - 1], i);
    }
  }

  // ---------------------------------------------------------------------------
  // Duplicate names, blank entries and lone words
  // ---------------------------------------------------------------------------

  /**
   * `t1 n, t2 n`: both descriptors stay in declaration order, and the name
   * maps to the later one.
   */
  lemma DuplicateNameKeepsBoth(t1: string, t2: string, n: string)
    requires IsWord(t1) && IsWord(t2) && IsWord(n)
    ensures ParseSpec(Render([Declaration(t1, n), Declaration(t2, n)])) ==
      Success(FieldSchema([ValueDescriptor(TypeOf(t1), n), ValueDescriptor(TypeOf(t2), n)], map[n := 1]))
  {
    var decls := [Declaration(t1, n), Declaration(t2, n)];
    ParseRendered(decls);
    var ds := [ValueDescriptor(TypeOf(t1), n), ValueDescriptor(TypeOf(t2), n)];
    PairOf(Declared(decls), ds[0], ds[1]);
    PairOf(Names(ds), n, n);
    IndexMapTwice(n);
  }

  lemma PairOf<T>(s: seq<T>, a: T, b: T)
    requires |s| == 2 && s[0] == a && s[1] == b
    ensures s == [a, b]
  {
  }

  lemma IndexMapTwice(n: string)
    ensures IndexMap([n, n]) == map[n := 1]
  {
    var m := IndexMap([n, n]);
    assert n in m;
    assert [n, n][1] == n;
    assert m.Keys == {n};
  }

  /**
   * An entry of blanks between two commas is handed out as a token of its
   * own, trims to the empty string and fails the whole list, whatever
   * surrounds it.
   */
  lemma BlankEntryFails(before: string, after: string)
    ensures ParseSpec(before + ", ," + after) == Failure(ArrayIndexOutOfBounds(1, 1))
  {
    var s := before + ", ," + after;
    assert s == before + [','] + (" " + [','] + after);
    TokensOfJoin(before, ',', " " + [','] + after, FieldSeparators);
    TokensOfJoin(" ", ',', after, FieldSeparators);
    SingleToken(" ", FieldSeparators);
    var tokens := Tokens(s, FieldSeparators);
    var k := |Tokens(before, FieldSeparators)|;
    assert tokens[k] == " ";
    assert Trim(" ") == [];
    ParseTokenCases(" ");
    ParseSpecFields(s);
  }

  /** A field list that is one word, a type with no name, fails on index 1. */
  lemma LoneWordFails(w: string)
    requires IsWord(w)
    ensures ParseSpec(w) == Failure(ArrayIndexOutOfBounds(1, 1))
  {
    SingleToken(w, FieldSeparators);
    assert w[0] in w && w[|w| - 1] in w;
    TrimPadded(w);
    WordHasNoWhitespace(w);
    ParseTokenCases(w);
    assert Tokens(w, FieldSeparators)[0] == w;
    ParseSpecFields(w);
  }
}
