/**
  Sort specs: the comment block that declares the sort keys of a paginated query, the
  rules it is accepted under, and its fan-out into one statement per key and direction.
 */
module SortSpecs {
  import opened Text
  import opened Sql
  import opened Keyset
  import opened Paging

  datatype SortKey = SortKey(name: string, columns: seq<string>, nullable: seq<string>)

  datatype SortSpec = SortSpec(
    name: string, keys: seq<SortKey>, defaultBy: seq<string>, cursor: map<string, string>, tiebreak: string)
  {
    predicate IsKeyset() {
      cursor != map[]
    }
  }

  datatype SpecError =
    | MalformedKey | MalformedCursor | NoKey | NoDefault
    | NullableNotLeading | UnboundColumn | BindingNotAParameter | BindingNotNullable

  // ---- Splitting a list of terms ----

  function Nesting(c: char, depth: nat): nat {
    if c == '(' || c == '{' then depth + 1
    else if (c == ')' || c == '}') && depth > 0 then depth - 1
    else depth
  }

  /** The stretches between the top-level commas of s, read at a nesting depth with cur before it. */
  function Pieces(s: string, depth: nat, cur: string): seq<string> {
    if s == "" then [cur]
    else if s[0] == ',' && depth == 0 then [cur] + Pieces(s[1..], 0, "")
    else Pieces(s[1..], Nesting(s[0], depth), cur + [s[0]])
  }

  function Split(s: string): seq<string> {
    NonBlank(Pieces(s, 0, ""))
  }

  lemma PiecesStep(s: string, i: nat, depth: nat, start: nat)
    requires start <= i < |s|
    ensures Pieces(s[i..], depth, s[start..i]) ==
      if s[i] == ',' && depth == 0 then [s[start..i]] + Pieces(s[i + 1..], 0, s[i + 1..i + 1])
      else Pieces(s[i + 1..], Nesting(s[i], depth), s[start..i + 1])
  {
    assert s[i..][0] == s[i] && s[i..][1..] == s[i + 1..];
    assert s[start..i] + [s[i]] == s[start..i + 1] && s[i + 1..i + 1] == "";
  }

  lemma PiecesEnds()
    ensures NonBlank([]) == [] && forall depth, cur :: Pieces("", depth, cur) == [cur]
  {
  }

  method SplitTerms(s: string) returns (out: seq<string>)
    ensures out == Split(s)
  {
    hide Pieces, NonBlank, Trimmed;
    out := [];
    var depth: nat, start := 0, 0;
    ghost var done: seq<string> := [];
    PiecesEnds();
    assert s[0..] == s && s[0..0] == "" && done + Pieces(s, 0, "") == Pieces(s, 0, "");
    for i := 0 to |s|
      invariant 0 <= start <= i
      invariant done + Pieces(s[i..], depth, s[start..i]) == Pieces(s, 0, "")
      invariant out == NonBlank(done)
    {
      PiecesStep(s, i, depth, start);
      if s[i] == '(' || s[i] == '{' {
        depth := depth + 1;
      } else if s[i] == ')' || s[i] == '}' {
        if depth > 0 { depth := depth - 1; }
      } else if s[i] == ',' && depth == 0 {
        NonBlankAppend(done, s[start..i]);
        out := out + Trimmed(s[start..i]);
        ghost var rest := Pieces(s[i + 1..], 0, s[i + 1..i + 1]);
        assert done + ([s[start..i]] + rest) == (done + [s[start..i]]) + rest;
        done := done + [s[start..i]];
        start := i + 1;
      }
    }
    assert s[|s|..] == "" && s[start..|s|] == s[start..];
    NonBlankAppend(done, s[start..]);
    out := out + Trimmed(s[start..]);
  }

  /** Nesting depth after s, or None when a separator occurs outside all brackets. */
  function DepthAfter(s: string, depth: nat): Option<nat> {
    if s == "" then Some(depth)
    else if s[0] == ',' && depth == 0 then None
    else DepthAfter(s[1..], Nesting(s[0], depth))
  }

  /** One term: not blank, no space around it, balanced, and without a separator of its own. */
  predicate IsTerm(t: string) {
    t != "" && NoSpaceAround(t) && DepthAfter(t, 0) == Some(0)
  }

  function JoinTerms(ts: seq<string>): string {
    if ts == [] then ""
    else if |ts| == 1 then ts[0]
    else ts[0] + "," + JoinTerms(ts[1..])
  }

  lemma {:induction false} PiecesSkipTerm(t: string, rest: string, depth: nat, cur: string)
    requires DepthAfter(t, depth) == Some(0)
    ensures Pieces(t + rest, depth, cur) == Pieces(rest, 0, cur + t)
    decreases t
  {
    if t == "" {
      assert t + rest == rest && cur + t == cur;
    } else {
      assert (t + rest)[0] == t[0] && (t + rest)[1..] == t[1..] + rest;
      PiecesSkipTerm(t[1..], rest, Nesting(t[0], depth), cur + [t[0]]);
      assert cur + [t[0]] + t[1..] == cur + t;
    }
  }

  lemma {:induction false} PiecesUndoJoin(ts: seq<string>)
    requires ts != [] && forall t <- ts :: DepthAfter(t, 0) == Some(0)
    ensures Pieces(JoinTerms(ts), 0, "") == ts
  {
    hide DepthAfter, Pieces, JoinTerms;
    var t := ts[0];
    assert t in ts && "" + t == t && forall x <- ts[1..] :: x in ts;
    JoinCons(ts);
    if |ts| == 1 {
      assert t + "" == t && ts == [t];
      PiecesSkipTerm(t, "", 0, "");
      PiecesEnds();
    } else {
      var rest := JoinTerms(ts[1..]);
      PiecesSkipTerm(t, "," + rest, 0, "");
      PiecesComma(rest, t);
      PiecesUndoJoin(ts[1..]);
      assert ts == [t] + ts[1..];
    }
  }

  lemma JoinCons(ts: seq<string>)
    requires ts != []
    ensures JoinTerms(ts) == if |ts| == 1 then ts[0] else ts[0] + ("," + JoinTerms(ts[1..]))
  {
    assert |ts| > 1 ==> ts[0] + "," + JoinTerms(ts[1..]) == ts[0] + ("," + JoinTerms(ts[1..]));
  }

  lemma PiecesComma(rest: string, cur: string)
    ensures Pieces("," + rest, 0, cur) == [cur] + Pieces(rest, 0, "")
  {
    assert ("," + rest)[1..] == rest;
  }

  function PadAll(pad: string, ts: seq<string>): (ps: seq<string>)
    ensures |ps| == |ts|
  {
    seq(|ts|, i requires 0 <= i < |ts| => Pad(pad, ts[i]))
  }

  lemma {:induction false} DepthOfBlanks(a: string, depth: nat)
    requires Blanks(a)
    ensures DepthAfter(a, depth) == Some(depth)
  {
    if a != "" {
      assert a[0] in a && forall c <- a[1..] :: c in a;
      DepthOfBlanks(a[1..], depth);
    }
  }

  lemma {:induction false} DepthAfterBoth(a: string, b: string, depth: nat)
    requires DepthAfter(a, depth).Some?
    ensures DepthAfter(a + b, depth) == DepthAfter(b, DepthAfter(a, depth).value)
    decreases a
  {
    if a == "" {
      assert a + b == b;
    } else {
      assert (a + b)[0] == a[0] && (a + b)[1..] == a[1..] + b;
      DepthAfterBoth(a[1..], b, Nesting(a[0], depth));
    }
  }

  lemma PaddedTerm(pad: string, t: string)
    requires IsTerm(t) && Blanks(pad)
    ensures DepthAfter(Pad(pad, t), 0) == Some(0) && Trimmed(Pad(pad, t)) == [t]
  {
    hide DepthAfter, TrimSpace;
    DepthOfBlanks(pad, 0);
    DepthAfterBoth(pad, t, 0);
    DepthAfterBoth(pad + t, pad, 0);
    TrimPad(pad, t, pad);
  }

  lemma {:induction false} NonBlankPadded(pad: string, ts: seq<string>)
    requires Blanks(pad) && forall t <- ts :: IsTerm(t)
    ensures NonBlank(PadAll(pad, ts)) == ts
  {
    hide IsTerm, Trimmed, Pad;
    if ts != [] {
      var init, last := ts[..|ts| - 1], ts[|ts| - 1];
      assert last in ts && forall t <- init :: t in ts;
      NonBlankPadded(pad, init);
      PaddedTerm(pad, last);
      assert PadAll(pad, ts) == PadAll(pad, init) + [Pad(pad, last)];
      NonBlankAppend(PadAll(pad, init), Pad(pad, last));
      assert ts == init + [last];
    }
  }

  /** Splitting undoes joining, whatever blanks stand around the terms. */
  lemma SplitUndoesJoin(ts: seq<string>, pad: string)
    requires Blanks(pad) && forall t <- ts :: IsTerm(t)
    ensures Split(JoinTerms(PadAll(pad, ts))) == ts
  {
    hide IsTerm, Pad;
    var ps := PadAll(pad, ts);
    if ts == [] {
      assert Pieces("", 0, "") == [""] && NonBlank([""][..0]) == [];
    } else {
      forall p <- ps ensures DepthAfter(p, 0) == Some(0) {
        var i :| 0 <= i < |ps| && ps[i] == p;
        assert ts[i] in ts;
        PaddedTerm(pad, ts[i]);
      }
      PiecesUndoJoin(ps);
      NonBlankPadded(pad, ts);
    }
  }

  // ---- Bracketed texts are terms ----

  /** Text with bracketed groups in it. */
  datatype Part = Flat(text: string) | Group(curly: bool, parts: seq<Part>)

  function Written(parts: seq<Part>): string {
    if parts == [] then "" else WrittenPart(parts[0]) + Written(parts[1..])
  }

  function WrittenPart(p: Part): string {
    match p
    case Flat(text) => text
    case Group(curly, parts) => if curly then "{" + Written(parts) + "}" else "(" + Written(parts) + ")"
  }

  /** The flat texts hold no brackets, and those outside all groups no comma. */
  predicate Bracketed(parts: seq<Part>, top: bool) {
    parts != [] ==> BracketedPart(parts[0], top) && Bracketed(parts[1..], top)
  }

  predicate BracketedPart(p: Part, top: bool) {
    match p
    case Flat(text) => forall c <- text :: c !in "(){}" && (top ==> c != ',')
    case Group(_, inner) => Bracketed(inner, false)
  }

  lemma {:induction false} FlatDepth(text: string, depth: nat)
    requires forall c <- text :: c !in "(){}" && (depth == 0 ==> c != ',')
    ensures DepthAfter(text, depth) == Some(depth)
  {
    if text != "" {
      assert text[0] in text && forall c <- text[1..] :: c in text;
      FlatDepth(text[1..], depth);
    }
  }

  lemma {:induction false} BracketedDepth(parts: seq<Part>, depth: nat)
    requires Bracketed(parts, depth == 0)
    ensures DepthAfter(Written(parts), depth) == Some(depth)
  {
    if parts != [] {
      var p := parts[0];
      if p.Flat? {
        FlatDepth(p.text, depth);
      } else {
        BracketedDepth(p.parts, depth + 1);
        var open, close := if p.curly then "{" else "(", if p.curly then "}" else ")";
        OneBracket(open, close, depth);
        DepthAfterBoth(open, Written(p.parts), depth);
        DepthAfterBoth(open + Written(p.parts), close, depth);
      }
      BracketedDepth(parts[1..], depth);
      DepthAfterBoth(WrittenPart(p), Written(parts[1..]), depth);
    }
  }

  lemma OneBracket(open: string, close: string, depth: nat)
    requires (open == "(" && close == ")") || (open == "{" && close == "}")
    ensures DepthAfter(open, depth) == Some(depth + 1) && DepthAfter(close, depth + 1) == Some(depth)
  {
    assert open[1..] == "" && close[1..] == "";
  }

  /** So a term like COALESCE(a, b) or {after:Nullable(Decimal(18, 6))} survives as one. */
  lemma BracketedIsTerm(parts: seq<Part>)
    requires Bracketed(parts, true) && Written(parts) != "" && NoSpaceAround(Written(parts))
    ensures IsTerm(Written(parts))
  {
    BracketedDepth(parts, 0);
  }

  // ---- Reading the lines of a spec ----

  function TrimPrefix(s: string, p: string): string
    requires p <= s
  {
    s[|p|..]
  }

  /** strings.Cut at a one-character separator. */
  function Cut(s: string, sep: char): Option<(string, string)> {
    var i := IndexFrom(s, sep, 0);
    if i == |s| then None else Some((s[..i], s[i + 1..]))
  }

  lemma CutAt(a: string, sep: char, b: string)
    requires sep !in a
    ensures Cut(a + [sep] + b, sep) == Some((a, b))
  {
    var s := a + [sep] + b;
    var i := IndexFrom(s, sep, 0);
    assert s[|a|] == sep && forall k :: 0 <= k < |a| ==> s[k] == a[k];
    assert i == |a| && s[..i] == a && s[i + 1..] == b;
  }

  /** A spec under construction, with the columns declared nullable so far. */
  datatype Draft = Draft(spec: SortSpec, nullable: seq<string>)

  function AddBindings(cursor: map<string, string>, pairs: seq<string>): Result<map<string, string>, SpecError>
    decreases pairs
  {
    if pairs == [] then Ok(cursor)
    else match Cut(pairs[0], '=')
      case None => Err(MalformedCursor)
      case Some(p) => AddBindings(cursor[TrimSpace(p.0) := TrimSpace(p.1)], pairs[1..])
  }

  function AddLine(d: Draft, l: string): Result<Draft, SpecError> {
    if "sort:" <= l then Ok(d)
    else if "key " <= l then
      match Cut(TrimPrefix(l, "key "), ':')
      case None => Err(MalformedKey)
      case Some(p) =>
        Ok(d.(spec := d.spec.(keys := d.spec.keys + [SortKey(TrimSpace(p.0), Split(p.1), [])])))
    else if "nullable:" <= l then Ok(d.(nullable := d.nullable + Split(TrimPrefix(l, "nullable:"))))
    else if "tiebreak:" <= l then Ok(d.(spec := d.spec.(tiebreak := TrimSpace(TrimPrefix(l, "tiebreak:")))))
    else if "default:" <= l then Ok(d.(spec := d.spec.(defaultBy := Split(TrimPrefix(l, "default:")))))
    else if "cursor:" <= l then
      match AddBindings(d.spec.cursor, Split(TrimPrefix(l, "cursor:")))
      case Err(e) => Err(e)
      case Ok(cursor) => Ok(d.(spec := d.spec.(cursor := cursor)))
    else Ok(d)
  }

  function AddLines(d: Draft, lines: seq<string>): Result<Draft, SpecError>
    decreases lines
  {
    if lines == [] then Ok(d)
    else match AddLine(d, lines[0])
      case Err(e) => Err(e)
      case Ok(d') => AddLines(d', lines[1..])
  }

  /** The columns that the nullable lines of a spec declare. */
  function DeclaredNullable(lines: seq<string>): seq<string> {
    if lines == [] then []
    else
      var l := lines[0];
      (if "nullable:" <= l then Split(TrimPrefix(l, "nullable:")) else []) + DeclaredNullable(lines[1..])
  }

  lemma {:induction false} LinesDeclareNullable(d: Draft, lines: seq<string>)
    requires AddLines(d, lines).Ok?
    ensures AddLines(d, lines).value.nullable == d.nullable + DeclaredNullable(lines)
    decreases lines
  {
    if lines != [] {
      LineDeclaresNullable(d, lines[0]);
      LinesDeclareNullable(AddLine(d, lines[0]).value, lines[1..]);
    }
  }

  lemma LineDeclaresNullable(d: Draft, l: string)
    requires AddLine(d, l).Ok?
    ensures AddLine(d, l).value.nullable ==
      d.nullable + if "nullable:" <= l then Split(TrimPrefix(l, "nullable:")) else []
  {
    if "nullable:" <= l {
      assert l[0] == 'n';
    }
  }

  function Restrict(columns: seq<string>, nullable: seq<string>): (r: seq<string>)
    ensures forall c :: c in r <==> c in columns && c in nullable
  {
    if columns == [] then []
    else (if columns[0] in nullable then [columns[0]] else []) + Restrict(columns[1..], nullable)
  }

  function WithNullable(keys: seq<SortKey>, nullable: seq<string>): (r: seq<SortKey>)
    ensures |r| == |keys|
  {
    seq(|keys|, i requires 0 <= i < |keys| => keys[i].(nullable := Restrict(keys[i].columns, nullable)))
  }

  predicate LeadingOnly(k: SortKey) {
    forall i :: 0 < i < |k.columns| ==> k.columns[i] !in k.nullable
  }

  predicate Bound(spec: SortSpec, columns: seq<string>) {
    forall c <- columns :: c in spec.cursor
  }

  /** The declared type of a {name:Type} binding. */
  function NativeParamType(binding: string): Option<string> {
    if binding == "" || binding[0] != '{' || binding[|binding| - 1] != '}' || |binding| == 1 then None
    else match Cut(binding[1..|binding| - 1], ':')
      case None => None
      case Some(p) => Some(TrimSpace(p.1))
  }

  predicate NullableParam(binding: string) {
    var typ := NativeParamType(binding);
    typ.Some? && "Nullable(" <= typ.value
  }

  /** The binding is {name:Type}, blanks allowed in front of the type, and the type starts with Nullable(. */
  ghost predicate IsNullableBinding(binding: string, name: string, pad: string, rest: string) {
    ':' !in name && Blanks(pad) && binding == "{" + (name + [':'] + (pad + "Nullable(" + rest)) + "}"
  }

  lemma NullableParamExactlyWhen(binding: string)
    ensures NullableParam(binding) <==> exists name, pad, rest :: IsNullableBinding(binding, name, pad, rest)
  {
    hide TrimSpace;
    if NullableParam(binding) {
      var body := binding[1..|binding| - 1];
      var (name, typ) := Cut(body, ':').value;
      assert name + [':'] + typ == body && ':' !in name;
      var pad, rest := TrimStarts(typ, "Nullable(");
      assert binding == "{" + body + "}";
      assert IsNullableBinding(binding, name, pad, rest);
    }
    if name, pad, rest :| IsNullableBinding(binding, name, pad, rest) {
      var typ := pad + "Nullable(" + rest;
      CutAt(name, ':', typ);
      TrimReaches(pad, "Nullable(", rest);
      assert binding[1..|binding| - 1] == name + [':'] + typ;
    }
  }

  /** What a spec has to satisfy to be accepted, over and above its lines being well-formed. */
  ghost predicate AcceptedSpec(spec: SortSpec) {
    && spec.keys != [] && spec.defaultBy != []
    && (spec.IsKeyset() ==>
          && (forall k <- spec.keys :: LeadingOnly(k) && Bound(spec, k.columns))
          && Bound(spec, spec.defaultBy)
          && (UsesNativeParams(spec.cursor) ==> forall c <- spec.cursor :: NullableParam(spec.cursor[c])))
  }

  method CheckNullable(key: SortKey) returns (ok: bool)
    ensures ok == LeadingOnly(key)
  {
    for i := 0 to |key.columns|
      invariant forall j :: 0 < j < i ==> key.columns[j] !in key.nullable
    {
      if i > 0 && key.columns[i] in key.nullable { return false; }
    }
    return true;
  }

  method CheckBound(spec: SortSpec, columns: seq<string>) returns (ok: bool)
    ensures ok == Bound(spec, columns)
  {
    for i := 0 to |columns|
      invariant forall j :: 0 <= j < i ==> columns[j] in spec.cursor
    {
      if columns[i] !in spec.cursor { return false; }
    }
    return true;
  }

  method CheckCursorBindings(spec: SortSpec) returns (err: Option<SpecError>)
    ensures err.None? <==>
      && (forall k <- spec.keys :: Bound(spec, k.columns))
      && Bound(spec, spec.defaultBy)
      && (UsesNativeParams(spec.cursor) ==> forall c <- spec.cursor :: NullableParam(spec.cursor[c]))
  {
    for i := 0 to |spec.keys|
      invariant forall j :: 0 <= j < i ==> Bound(spec, spec.keys[j].columns)
    {
      var ok := CheckBound(spec, spec.keys[i].columns);
      if !ok { return Some(UnboundColumn); }
    }
    var ok := CheckBound(spec, spec.defaultBy);
    if !ok { return Some(UnboundColumn); }
    if !UsesNativeParams(spec.cursor) { return None; }
    var todo := spec.cursor.Keys;
    while todo != {}
      invariant todo <= spec.cursor.Keys
      invariant forall c <- spec.cursor :: c !in todo ==> NullableParam(spec.cursor[c])
      decreases |todo|
    {
      var c :| c in todo;
      if NativeParamType(spec.cursor[c]).None? { return Some(BindingNotAParameter); }
      if !NullableParam(spec.cursor[c]) { return Some(BindingNotNullable); }
      todo := todo - {c};
    }
    return None;
  }

  /** The spec that the lines describe: each key keeps those of its columns that are declared nullable. */
  function Described(draft: Draft): SortSpec {
    draft.spec.(keys := WithNullable(draft.spec.keys, draft.nullable))
  }

  function EmptyDraft(name: string): Draft {
    Draft(SortSpec(name, [], [], map[], ""), [])
  }

  /** A spec is read line by line and accepted exactly when its lines are well-formed and it meets the rules. */
  method ParseSortSpec(name: string, lines: seq<string>) returns (r: Result<SortSpec, SpecError>)
    ensures match AddLines(EmptyDraft(name), lines)
            case Err(_) => r.Err?
            case Ok(draft) => if AcceptedSpec(Described(draft)) then r == Ok(Described(draft)) else r.Err?
  {
    var draft := EmptyDraft(name);
    for i := 0 to |lines|
      invariant AddLines(draft, lines[i..]) == AddLines(EmptyDraft(name), lines)
    {
      assert lines[i..][0] == lines[i] && lines[i..][1..] == lines[i + 1..];
      match AddLine(draft, lines[i])
      case Err(e) => return Err(e);
      case Ok(d) => draft := d;
    }
    assert lines[|lines|..] == [];
    if draft.spec.keys == [] { return Err(NoKey); }
    if draft.spec.defaultBy == [] { return Err(NoDefault); }
    r := Finish(draft);
  }

  method Finish(draft: Draft) returns (r: Result<SortSpec, SpecError>)
    requires draft.spec.keys != [] && draft.spec.defaultBy != []
    ensures if AcceptedSpec(Described(draft)) then r == Ok(Described(draft)) else r.Err?
  {
    var spec := draft.spec;
    var keys: seq<SortKey> := [];
    for i := 0 to |spec.keys|
      invariant |keys| == i
      invariant forall j :: 0 <= j < i ==> keys[j] == Described(draft).keys[j]
      invariant spec.IsKeyset() ==> forall j :: 0 <= j < i ==> LeadingOnly(keys[j])
    {
      var key := spec.keys[i].(nullable := Restrict(spec.keys[i].columns, draft.nullable));
      keys := keys + [key];
      if spec.IsKeyset() {
        var ok := CheckNullable(key);
        if !ok {
          assert key == Described(draft).keys[i];
          assert Described(draft).IsKeyset();
          return Err(NullableNotLeading);
        }
      }
    }
    assert keys == Described(draft).keys;
    spec := spec.(keys := keys);
    if spec.IsKeyset() {
      var err := CheckCursorBindings(spec);
      if err.Some? { return Err(err.value); }
    }
    return Ok(spec);
  }

  // ---- Fan-out ----

  datatype VariantKey = DefaultVariant | KeyVariant(sortKey: string, descending: bool)

  /** One generated statement; the tiebreak text is appended to its ORDER BY. */
  datatype Statement = Statement(key: VariantKey, orderBy: seq<OrderTerm>, tiebreak: string, keyset: Option<Pred>)

  datatype FanOutError = NoKeysetPlaceholder | KeysetWithoutCursor | NoOrderByPlaceholder

  function StatementFor(
    spec: SortSpec, key: VariantKey, columns: seq<string>, nullable: seq<string>, desc: bool): Statement {
    Statement(key, OrderByClause(columns, nullable, desc, spec.IsKeyset()), spec.tiebreak,
              if spec.IsKeyset() then Some(KeysetPredicate(spec.cursor, columns, nullable, desc)) else None)
  }

  /** The statement is the compiled form of a keyset variant. */
  ghost predicate Compiles(st: Statement, v: Variant) {
    st.orderBy == v.Order() && st.keyset == Some(v.Predicate())
  }

  /** The rows first differ in a nullable column, where only s holds a null. */
  ghost predicate FirstNullAt(columns: seq<string>, nullable: seq<string>, r: Row, s: Row, i: nat) {
    && i < |columns| && columns[i] in nullable && Get(r, columns[i]).Val? && Get(s, columns[i]).Null?
    && forall j :: 0 <= j < i ==> Get(r, columns[j]) == Get(s, columns[j])
  }

  /** The order puts r in front of s, and not the other way round. */
  ghost predicate Puts(terms: seq<OrderTerm>, d: Dialect, r: Row, s: Row) {
    Precedes(terms, d, r, s) && !Precedes(terms, d, s, r)
  }

  ghost predicate PutsNullsLast(terms: seq<OrderTerm>, columns: seq<string>, nullable: seq<string>) {
    forall d: Dialect, r: Row, s: Row, i: nat :: FirstNullAt(columns, nullable, r, s, i) ==> Puts(terms, d, r, s)
  }

  /**
    The statement sorts by the columns in the given direction and carries the tiebreak of
    the spec. With a cursor it compiles a keyset variant; without one it has no predicate
    and puts nulls last.
   */
  ghost predicate SortsBy(st: Statement, spec: SortSpec, columns: seq<string>, nullable: seq<string>, desc: bool) {
    && |st.orderBy| == |columns| && st.tiebreak == spec.tiebreak
    && (forall i :: 0 <= i < |columns| ==> st.orderBy[i].column == columns[i] && st.orderBy[i].desc == desc)
    && (forall i :: 0 <= i < |columns| ==> (st.orderBy[i].nulls.Unspecified? <==> columns[i] !in nullable))
    && if spec.cursor != map[] then Compiles(st, Variant(spec.cursor, columns, nullable, desc))
       else st.keyset.None? && PutsNullsLast(st.orderBy, columns, nullable)
  }

  lemma StatementSorts(spec: SortSpec, key: VariantKey, columns: seq<string>, nullable: seq<string>, desc: bool)
    ensures SortsBy(StatementFor(spec, key, columns, nullable, desc), spec, columns, nullable, desc)
  {
    NullsComeLast(columns, nullable, desc);
    hide PutsNullsLast, KeysetPredicate;
  }

  lemma NullsComeLast(columns: seq<string>, nullable: seq<string>, desc: bool)
    ensures PutsNullsLast(OrderByClause(columns, nullable, desc, false), columns, nullable)
  {
    hide OrderByClause;
    var terms := OrderByClause(columns, nullable, desc, false);
    forall d: Dialect, r: Row, s: Row, i: nat | FirstNullAt(columns, nullable, r, s, i)
      ensures Puts(terms, d, r, s)
    {
      OrderingOnlyKeepsNullsLast(columns, nullable, desc, d, r, s, i);
    }
  }

  /** The statement of a key in a direction. */
  ghost predicate IsVariantOf(st: Statement, spec: SortSpec, k: SortKey, desc: bool) {
    st.key == KeyVariant(k.name, desc) && SortsBy(st, spec, k.columns, k.nullable, desc)
  }

  /** The default ordering first, then every key descending and ascending. */
  ghost predicate FansOut(out: seq<Statement>, spec: SortSpec) {
    && |out| == 1 + 2 * |spec.keys|
    && out[0].key == DefaultVariant && SortsBy(out[0], spec, spec.defaultBy, [], false)
    && forall i :: 0 <= i < |spec.keys| ==>
         && IsVariantOf(out[1 + 2 * i], spec, spec.keys[i], true)
         && IsVariantOf(out[2 + 2 * i], spec, spec.keys[i], false)
  }

  method FanOut(spec: SortSpec, hasKeyset: bool, hasOrderBy: bool) returns (r: Result<seq<Statement>, FanOutError>)
    ensures r.Ok? <==> hasKeyset == (spec.cursor != map[]) && hasOrderBy
    ensures r.Ok? ==> FansOut(r.value, spec)
  {
    hide SortsBy;
    var out := [StatementFor(spec, DefaultVariant, spec.defaultBy, [], false)];
    StatementSorts(spec, DefaultVariant, spec.defaultBy, [], false);
    for i := 0 to |spec.keys|
      invariant |out| == 1 + 2 * i
      invariant out[0].key == DefaultVariant && SortsBy(out[0], spec, spec.defaultBy, [], false)
      invariant forall j :: 0 <= j < i ==>
        && IsVariantOf(out[1 + 2 * j], spec, spec.keys[j], true)
        && IsVariantOf(out[2 + 2 * j], spec, spec.keys[j], false)
    {
      var k := spec.keys[i];
      out := out + [StatementFor(spec, KeyVariant(k.name, true), k.columns, k.nullable, true)];
      out := out + [StatementFor(spec, KeyVariant(k.name, false), k.columns, k.nullable, false)];
      StatementSorts(spec, KeyVariant(k.name, true), k.columns, k.nullable, true);
      StatementSorts(spec, KeyVariant(k.name, false), k.columns, k.nullable, false);
    }
    if spec.IsKeyset() && !hasKeyset { return Err(NoKeysetPlaceholder); }
    if !spec.IsKeyset() && hasKeyset { return Err(KeysetWithoutCursor); }
    if !hasOrderBy { return Err(NoOrderByPlaceholder); }
    return Ok(out);
  }

  /** The statement is that of a key and a direction, and compiles a variant as accepted specs have them. */
  ghost predicate CompilesKey(spec: SortSpec, k: SortKey, desc: bool, st: Statement) {
    var v := Variant(spec.cursor, k.columns, k.nullable, desc);
    Compiles(st, v) && v.Accepted() && st.key == KeyVariant(k.name, desc)
  }

  /** Every key statement of an accepted keyset spec compiles such a variant. */
  lemma KeyStatementsAreVariants(spec: SortSpec, out: seq<Statement>, n: nat)
    requires AcceptedSpec(spec) && spec.IsKeyset() && FansOut(out, spec) && 0 < n < |out|
    ensures CompilesKey(spec, spec.keys[(n - 1) / 2], n % 2 == 1, out[n])
  {
    hide SortsBy, IsVariantOf, CompilesKey, AcceptedSpec;
    var i := (n - 1) / 2;
    assert n == 1 + 2 * i || n == 2 + 2 * i;
    assert spec.keys[i] in spec.keys;
    VariantCompiles(out[n], spec, spec.keys[i], n % 2 == 1);
  }

  lemma VariantCompiles(st: Statement, spec: SortSpec, k: SortKey, desc: bool)
    requires AcceptedSpec(spec) && spec.IsKeyset() && k in spec.keys && IsVariantOf(st, spec, k, desc)
    ensures CompilesKey(spec, k, desc, st)
  {
    hide PutsNullsLast, KeysetPredicate, OrderByClause, UsesNativeParams;
    assert LeadingOnly(k) && Bound(spec, k.columns);
  }

  lemma DefaultStatementIsAVariant(spec: SortSpec, out: seq<Statement>)
    requires AcceptedSpec(spec) && spec.IsKeyset() && FansOut(out, spec)
    ensures var v := Variant(spec.cursor, spec.defaultBy, [], false);
            out[0].key == DefaultVariant && Compiles(out[0], v) && v.Accepted() && v.columns != []
  {
  }

  /** A statement pages safely exactly when its key has columns and is not a single nullable one. */
  lemma KeyIsPageable(spec: SortSpec, k: SortKey, desc: bool, tiebreak: seq<OrderTerm>, d: Dialect)
    requires AcceptedSpec(spec) && spec.IsKeyset() && k in spec.keys
    ensures Query(Variant(spec.cursor, k.columns, k.nullable, desc), tiebreak, d).Pageable()
       <==> k.columns != [] && !(|k.columns| == 1 && k.columns[0] in k.nullable)
  {
    assert LeadingOnly(k) && Bound(spec, k.columns);
  }

  lemma KeysOfLines(name: string, lines: seq<string>, k: SortKey)
    requires AddLines(EmptyDraft(name), lines).Ok? && k in Described(AddLines(EmptyDraft(name), lines).value).keys
    ensures forall c :: c in k.nullable <==> c in k.columns && c in DeclaredNullable(lines)
  {
    LinesDeclareNullable(EmptyDraft(name), lines);
    var draft := AddLines(EmptyDraft(name), lines).value;
    assert [] + DeclaredNullable(lines) == DeclaredNullable(lines);
    var i :| 0 <= i < |draft.spec.keys| && k == Described(draft).keys[i];
    assert k.nullable == Restrict(draft.spec.keys[i].columns, draft.nullable);
  }

  // ---- The default ordering ignores the nullable declarations ----

  /** Only the columns a spec declares nullable hold nulls. */
  ghost predicate Honours(row: Row, columns: seq<string>, declared: seq<string>) {
    forall c <- columns :: c !in declared ==> Get(row, c).Val?
  }

  /** The default statement selects what follows the cursor, on all rows the declarations allow. */
  ghost predicate DefaultWorks(cursor: map<string, string>, columns: seq<string>, declared: seq<string>, d: Dialect) {
    var v := Variant(cursor, columns, [], false);
    forall args: Args, row: Row, at: Row ::
      Honours(row, columns, declared) && Honours(at, columns, declared) && v.CursorAt(args, at)
        && !v.FirstPage(args) ==>
        (v.Selects(args, row) <==> Precedes(v.Order(), d, at, row))
  }

  lemma {:induction false} NullEndsComparison(a: seq<Cell>, b: seq<Cell>)
    requires |a| == |b| && forall i :: 0 <= i < |a| ==> b[i] == Val(0) && (a[i] == Val(0) || a[i] == Null)
    ensures CompareCellSeqs(Greater, a, b) != True
  {
    if a != [] {
      NullEndsComparison(a[1..], b[1..]);
    }
  }

  lemma {:induction false} NullComesLast(columns: seq<string>, d: Dialect, at: Row, row: Row, i: nat)
    requires i < |columns| && Get(row, columns[i]).Null?
    requires forall c <- columns :: Get(at, c) == Val(0) && (Get(row, c) == Val(0) || Get(row, c).Null?)
    ensures Precedes(OrderByClause(columns, [], false, true), d, at, row)
    decreases i
  {
    assert columns[0] in columns;
    assert OrderByClause(columns, [], false, true)[1..] == OrderByClause(columns[1..], [], false, true);
    if Get(row, columns[0]).Val? {
      NullComesLast(columns[1..], d, at, row, i - 1);
    }
  }

  lemma NullIsNotAfter(cursor: map<string, string>, columns: seq<string>, args: Args, row: Row)
    requires columns != []
    requires forall c <- columns :: Get(args, Arg(cursor, c).name) == Val(0)
    requires forall c <- columns :: Get(row, c) == Val(0) || Get(row, c).Null?
    ensures Eval(RowComparison(cursor, columns, false), row, args) != True
  {
    assert columns[0] in columns;
    if |columns| > 1 {
      var p := RowComparison(cursor, columns, false);
      assert TermValues(p.lefts, row, args) == Cells(columns, row);
      assert forall j :: 0 <= j < |columns| ==> TermValues(p.rights, row, args)[j] == Val(0);
      NullEndsComparison(TermValues(p.lefts, row, args), TermValues(p.rights, row, args));
    }
  }

  /** A row with a null in a default column is skipped by a cursor it comes after. */
  lemma DefaultSkipsNull(cursor: map<string, string>, columns: seq<string>, declared: seq<string>, d: Dialect, i: nat)
    requires i < |columns| && columns[i] in declared && forall c <- columns :: c in cursor
    ensures !DefaultWorks(cursor, columns, declared, d)
  {
    hide Precedes, Eval, OrderByClause, PredicateAs, RowComparison;
    var v := Variant(cursor, columns, [], false);
    var at: Row := map c | c in columns :: Val(0);
    var row: Row := at[columns[i] := Null];
    var args: Args := map name | name in cursor.Values :: Val(0);
    assert columns[0] in columns;
    NullComesLast(columns, d, at, row, i);
    NullIsNotAfter(cursor, columns, args, row);
    SelectsArms(v, UsesNativeParams(cursor), args, row);
    assert v.CursorAt(args, at) && !v.FirstPage(args) && !v.Selects(args, row);
  }

  /** The default statement of a spec works exactly when none of its columns is declared nullable. */
  lemma DefaultWorksExactlyWhen(cursor: map<string, string>, columns: seq<string>, declared: seq<string>, d: Dialect)
    requires columns != [] && forall c <- columns :: c in cursor
    ensures DefaultWorks(cursor, columns, declared, d) <==> forall c <- columns :: c !in declared
  {
    if c :| c in columns && c in declared {
      var i :| 0 <= i < |columns| && columns[i] == c;
      DefaultSkipsNull(cursor, columns, declared, d, i);
    } else {
      var v := Variant(cursor, columns, [], false);
      forall args: Args, row: Row, at: Row
        | Honours(row, columns, declared) && Honours(at, columns, declared) && v.CursorAt(args, at)
          && !v.FirstPage(args)
        ensures v.Selects(args, row) <==> Precedes(v.Order(), d, at, row)
      {
        SelectsExactlyAfter(v, d, args, row, at);
      }
    }
  }

  // ---- From the lines to the pages ----

  /**
    The statements generated from the lines of an accepted keyset spec: each sort key gives a
    statement that pages safely exactly when the key has columns and is not one column
    declared nullable, and the default statement works exactly when none of its columns is
    declared nullable.
   */
  lemma LinesToPages(
    name: string, lines: seq<string>, out: seq<Statement>, n: nat, tiebreak: seq<OrderTerm>, d: Dialect)
    requires AddLines(EmptyDraft(name), lines).Ok?
    requires var spec := Described(AddLines(EmptyDraft(name), lines).value);
             AcceptedSpec(spec) && spec.IsKeyset() && FansOut(out, spec) && 0 < n < |out|
    ensures var spec, declared := Described(AddLines(EmptyDraft(name), lines).value), DeclaredNullable(lines);
            var k, desc := spec.keys[(n - 1) / 2], n % 2 == 1;
            var v := Variant(spec.cursor, k.columns, k.nullable, desc);
            && Compiles(out[n], v) && out[n].key == KeyVariant(k.name, desc)
            && (Query(v, tiebreak, d).Pageable() <==>
                k.columns != [] && !(|k.columns| == 1 && k.columns[0] in declared))
            && (DefaultWorks(spec.cursor, spec.defaultBy, declared, d) <==>
                forall c <- spec.defaultBy :: c !in declared)
  {
    hide AddLines, Described, DeclaredNullable, DefaultWorks, FansOut;
    var spec, declared := Described(AddLines(EmptyDraft(name), lines).value), DeclaredNullable(lines);
    KeyStatementsAreVariants(spec, out, n);
    assert |out| == 1 + 2 * |spec.keys| by { FanOutLength(out, spec); }
    var k, desc := spec.keys[(n - 1) / 2], n % 2 == 1;
    assert k in spec.keys;
    KeyIsPageable(spec, k, desc, tiebreak, d);
    KeysOfLines(name, lines, k);
    assert k.columns != [] ==> k.columns[0] in k.columns;
    DefaultWorksExactlyWhen(spec.cursor, spec.defaultBy, declared, d);
  }

  lemma FanOutLength(out: seq<Statement>, spec: SortSpec)
    requires FansOut(out, spec)
    ensures |out| == 1 + 2 * |spec.keys|
  {
  }
}
