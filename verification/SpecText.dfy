/** Sort specs as they are written: the lines that describe a spec read back as that spec. */
module SpecText {
  import opened Text
  import opened Keyset
  import opened SortSpecs

  function KeyLine(k: SortKey, pad: string): string {
    "key " + (Pad(pad, k.name) + [':'] + JoinTerms(PadAll(pad, k.columns)))
  }

  function KeyLines(keys: seq<SortKey>, pad: string): seq<string> {
    if keys == [] then [] else [KeyLine(keys[0], pad)] + KeyLines(keys[1..], pad)
  }

  /** A column and the argument its cursor value is passed in. */
  type Binding = (string, string)

  function BindingText(b: Binding, pad: string): string {
    b.0 + pad + ['='] + (pad + b.1)
  }

  function BindingTexts(bs: seq<Binding>, pad: string): (ts: seq<string>)
    ensures |ts| == |bs|
  {
    seq(|bs|, i requires 0 <= i < |bs| => BindingText(bs[i], pad))
  }

  /** A cursor line with any number of bindings. */
  function CursorLine(bs: seq<Binding>, pad: string): string {
    "cursor:" + JoinTerms(PadAll(pad, BindingTexts(bs, pad)))
  }

  function CursorLines(bss: seq<seq<Binding>>, pad: string): seq<string> {
    if bss == [] then [] else [CursorLine(bss[0], pad)] + CursorLines(bss[1..], pad)
  }

  /** The lines of a spec: the columns declared nullable, the bindings on any cursor lines, blanks around the parts. */
  function Lines(spec: SortSpec, declared: seq<string>, bss: seq<seq<Binding>>, pad: string): seq<string> {
    ["sort:" + spec.name] + KeyLines(spec.keys, pad) + MiddleLines(spec, declared, pad) + CursorLines(bss, pad)
  }

  function MiddleLines(spec: SortSpec, declared: seq<string>, pad: string): seq<string> {
    ["nullable:" + JoinTerms(PadAll(pad, declared)), "tiebreak:" + Pad(pad, spec.tiebreak),
     "default:" + JoinTerms(PadAll(pad, spec.defaultBy))]
  }

  predicate Terms(ts: seq<string>) {
    forall t <- ts :: IsTerm(t)
  }

  predicate IsBinding(b: Binding) {
    IsTerm(b.0) && IsTerm(b.1) && '=' !in b.0
  }

  function AllBindings(bss: seq<seq<Binding>>): seq<Binding> {
    if bss == [] then [] else bss[0] + AllBindings(bss[1..])
  }

  /** The argument that the last binding of a column names. */
  function LastBinding(bs: seq<Binding>, c: string): Option<string> {
    if bs == [] then None
    else
      var b := bs[|bs| - 1];
      if b.0 == c then Some(b.1) else LastBinding(bs[..|bs| - 1], c)
  }

  function Find(cursor: map<string, string>, c: string): Option<string> {
    if c in cursor then Some(cursor[c]) else None
  }

  predicate IsKey(k: SortKey) {
    ':' !in k.name && NoSpaceAround(k.name) && Terms(k.columns)
  }

  /** The parts of the spec can be told apart where they are written. */
  ghost predicate Writable(spec: SortSpec, declared: seq<string>, bss: seq<seq<Binding>>) {
    && (forall k <- spec.keys :: IsKey(k) && k.nullable == Restrict(k.columns, declared))
    && Terms(declared) && Terms(spec.defaultBy) && NoSpaceAround(spec.tiebreak)
    && (forall b <- AllBindings(bss) :: IsBinding(b))
    && forall c :: Find(spec.cursor, c) == LastBinding(AllBindings(bss), c)
  }

  lemma {:induction false} AddLinesAppend(d: Draft, a: seq<string>, b: seq<string>)
    requires AddLines(d, a).Ok?
    ensures AddLines(d, a + b) == AddLines(AddLines(d, a).value, b)
    decreases |a|
  {
    hide AddLine;
    if a == [] {
      assert a + b == b;
    } else {
      assert (a + b)[0] == a[0] && (a + b)[1..] == a[1..] + b;
      AddLinesAppend(AddLine(d, a[0]).value, a[1..], b);
    }
  }

  // ---- One line ----

  lemma ReadsKey(d: Draft, k: SortKey, pad: string)
    requires IsKey(k) && Blanks(pad)
    ensures AddLine(d, KeyLine(k, pad)) ==
            Ok(d.(spec := d.spec.(keys := d.spec.keys + [SortKey(k.name, k.columns, [])])))
  {
    var columns := JoinTerms(PadAll(pad, k.columns));
    assert ':' !in pad by { assert !IsSpace(':'); }
    CutAt(Pad(pad, k.name), ':', columns);
    SplitUndoesJoin(k.columns, pad);
    TrimPad(pad, k.name, pad);
    hide TrimSpace, Split, JoinTerms, PadAll, Cut;
    var l, rest := KeyLine(k, pad), Pad(pad, k.name) + [':'] + columns;
    assert l[0] == 'k' && "key " <= l && TrimPrefix(l, "key ") == rest;
  }

  lemma ReadsNullable(d: Draft, declared: seq<string>, pad: string)
    requires Terms(declared) && Blanks(pad)
    ensures AddLine(d, "nullable:" + JoinTerms(PadAll(pad, declared))) == Ok(d.(nullable := d.nullable + declared))
  {
    hide TrimSpace, Split, JoinTerms, PadAll;
    var text := JoinTerms(PadAll(pad, declared));
    var l := "nullable:" + text;
    assert l[0] == 'n' && TrimPrefix(l, "nullable:") == text;
    SplitUndoesJoin(declared, pad);
  }

  lemma ReadsTiebreak(d: Draft, tiebreak: string, pad: string)
    requires NoSpaceAround(tiebreak) && Blanks(pad)
    ensures AddLine(d, "tiebreak:" + Pad(pad, tiebreak)) == Ok(d.(spec := d.spec.(tiebreak := tiebreak)))
  {
    TrimPad(pad, tiebreak, pad);
    hide TrimSpace, Split;
    var l := "tiebreak:" + Pad(pad, tiebreak);
    assert l[0] == 't' && TrimPrefix(l, "tiebreak:") == Pad(pad, tiebreak);
  }

  lemma ReadsDefault(d: Draft, columns: seq<string>, pad: string)
    requires Terms(columns) && Blanks(pad)
    ensures AddLine(d, "default:" + JoinTerms(PadAll(pad, columns))) ==
            Ok(d.(spec := d.spec.(defaultBy := columns)))
  {
    hide TrimSpace, Split, JoinTerms, PadAll;
    var text := JoinTerms(PadAll(pad, columns));
    var l := "default:" + text;
    assert l[0] == 'd' && TrimPrefix(l, "default:") == text;
    SplitUndoesJoin(columns, pad);
  }

  lemma ReadsName(d: Draft, name: string)
    ensures AddLine(d, "sort:" + name) == Ok(d)
  {
  }

  // ---- One cursor line ----

  /** The bindings put over those of a cursor, one by one. */
  function Over(cursor: map<string, string>, bs: seq<Binding>): map<string, string>
    decreases |bs|
  {
    if bs == [] then cursor else Over(cursor[bs[0].0 := bs[0].1], bs[1..])
  }

  lemma {:induction false} OverAppend(cursor: map<string, string>, a: seq<Binding>, b: seq<Binding>)
    ensures Over(cursor, a + b) == Over(Over(cursor, a), b)
    decreases |a|
  {
    if a == [] {
      assert a + b == b;
    } else {
      assert (a + b)[0] == a[0] && (a + b)[1..] == a[1..] + b;
      OverAppend(cursor[a[0].0 := a[0].1], a[1..], b);
    }
  }

  lemma {:induction false} LaterWins(cursor: map<string, string>, bs: seq<Binding>, c: string)
    ensures Find(Over(cursor, bs), c) ==
            if LastBinding(bs, c).Some? then LastBinding(bs, c) else Find(cursor, c)
  {
    hide Over;
    if bs == [] {
      OverNone(cursor);
    } else {
      var init, last := bs[..|bs| - 1], bs[|bs| - 1];
      LaterWins(cursor, init, c);
      assert bs == init + [last];
      OverAppend(cursor, init, [last]);
      OverOne(Over(cursor, init), last);
    }
  }

  lemma OverNone(cursor: map<string, string>)
    ensures Over(cursor, []) == cursor
  {
  }

  lemma OverOne(cursor: map<string, string>, b: Binding)
    ensures Over(cursor, [b]) == cursor[b.0 := b.1]
  {
    assert [b][1..] == [];
  }

  lemma BindingIsTerm(b: Binding, pad: string)
    requires IsBinding(b) && Blanks(pad)
    ensures IsTerm(BindingText(b, pad))
  {
    var a, z := b.0 + pad, pad + b.1;
    DepthOfBlanks(pad, 0);
    DepthAfterBoth(b.0, pad, 0);
    DepthAfterBoth(pad, b.1, 0);
    assert ['='][1..] == [] && DepthAfter(['='], 0) == Some(0);
    DepthAfterBoth(a, ['='], 0);
    DepthAfterBoth(a + ['='], z, 0);
    hide DepthAfter;
    var t := BindingText(b, pad);
    assert t == a + ['='] + z && t[0] == b.0[0] && t[|t| - 1] == b.1[|b.1| - 1];
  }

  lemma BindingReads(b: Binding, pad: string)
    requires IsBinding(b) && Blanks(pad)
    ensures Cut(BindingText(b, pad), '=') == Some((b.0 + pad, pad + b.1))
    ensures TrimSpace(b.0 + pad) == b.0 && TrimSpace(pad + b.1) == b.1
  {
    hide DepthAfter;
    assert '=' !in pad by { assert !IsSpace('='); }
    CutAt(b.0 + pad, '=', pad + b.1);
    TrimPad("", b.0, pad);
    TrimPad(pad, b.1, "");
    assert "" + b.0 + pad == b.0 + pad && pad + b.1 + "" == pad + b.1;
  }

  lemma {:induction false} ReadsBindings(cursor: map<string, string>, bs: seq<Binding>, pad: string)
    requires Blanks(pad) && forall b <- bs :: IsBinding(b)
    ensures AddBindings(cursor, BindingTexts(bs, pad)) == Ok(Over(cursor, bs))
    decreases |bs|
  {
    hide IsBinding, TrimSpace, BindingText;
    if bs != [] {
      var b := bs[0];
      assert b in bs && forall x <- bs[1..] :: x in bs;
      BindingReads(b, pad);
      ReadsBindings(cursor[b.0 := b.1], bs[1..], pad);
      assert BindingTexts(bs, pad)[1..] == BindingTexts(bs[1..], pad);
    }
  }

  lemma ReadsCursorLine(d: Draft, bs: seq<Binding>, pad: string)
    requires Blanks(pad) && forall b <- bs :: IsBinding(b)
    ensures AddLine(d, CursorLine(bs, pad)) == Ok(d.(spec := d.spec.(cursor := Over(d.spec.cursor, bs))))
  {
    var ts := BindingTexts(bs, pad);
    forall t <- ts ensures IsTerm(t) {
      var i :| 0 <= i < |ts| && ts[i] == t;
      assert bs[i] in bs;
      BindingIsTerm(bs[i], pad);
    }
    SplitUndoesJoin(ts, pad);
    ReadsBindings(d.spec.cursor, bs, pad);
    hide TrimSpace, Split, JoinTerms, PadAll, AddBindings, Over, IsTerm, BindingTexts;
    var text := JoinTerms(PadAll(pad, ts));
    var l := "cursor:" + text;
    assert l[0] == 'c' && TrimPrefix(l, "cursor:") == text;
  }

  /** A cursor line binds every column it names, the last binding of a column winning, and leaves the others alone. */
  lemma CursorLineBinds(d: Draft, bs: seq<Binding>, pad: string)
    requires Blanks(pad) && forall b <- bs :: IsBinding(b)
    ensures var r := AddLine(d, CursorLine(bs, pad));
            && r.Ok? && r.value == d.(spec := d.spec.(cursor := r.value.spec.cursor))
            && forall c :: Find(r.value.spec.cursor, c) ==
                 if LastBinding(bs, c).Some? then LastBinding(bs, c) else Find(d.spec.cursor, c)
  {
    hide AddLine, CursorLine, Over, LastBinding, IsBinding;
    ReadsCursorLine(d, bs, pad);
    forall c ensures Find(Over(d.spec.cursor, bs), c) ==
      if LastBinding(bs, c).Some? then LastBinding(bs, c) else Find(d.spec.cursor, c)
    {
      LaterWins(d.spec.cursor, bs, c);
    }
  }

  // ---- Many lines ----

  function Bare(keys: seq<SortKey>): seq<SortKey> {
    if keys == [] then [] else [keys[0].(nullable := [])] + Bare(keys[1..])
  }

  lemma KeysCons(before: seq<SortKey>, keys: seq<SortKey>, pad: string)
    requires keys != []
    ensures KeyLines(keys, pad)[0] == KeyLine(keys[0], pad) && KeyLines(keys, pad)[1..] == KeyLines(keys[1..], pad)
    ensures before + [keys[0].(nullable := [])] + Bare(keys[1..]) == before + Bare(keys)
  {
    hide KeyLine;
  }

  lemma {:induction false} ReadsKeys(d: Draft, keys: seq<SortKey>, pad: string)
    requires Blanks(pad) && forall k <- keys :: IsKey(k)
    ensures AddLines(d, KeyLines(keys, pad)) == Ok(d.(spec := d.spec.(keys := d.spec.keys + Bare(keys))))
    decreases |keys|
  {
    hide AddLine, KeyLine, IsKey;
    if keys == [] {
      assert d.spec.keys + [] == d.spec.keys;
    } else {
      var k, bare := keys[0], keys[0].(nullable := []);
      assert k in keys && forall x <- keys[1..] :: x in keys;
      ReadsKey(d, k, pad);
      var d' := d.(spec := d.spec.(keys := d.spec.keys + [bare]));
      ReadsKeys(d', keys[1..], pad);
      KeysCons(d.spec.keys, keys, pad);
      assert AddLines(d, KeyLines(keys, pad)) == AddLines(d', KeyLines(keys[1..], pad));
    }
  }

  lemma {:induction false} ReadsCursor(d: Draft, bss: seq<seq<Binding>>, pad: string)
    requires Blanks(pad) && forall b <- AllBindings(bss) :: IsBinding(b)
    ensures AddLines(d, CursorLines(bss, pad)) ==
            Ok(d.(spec := d.spec.(cursor := Over(d.spec.cursor, AllBindings(bss)))))
    decreases |bss|
  {
    hide AddLine, IsBinding, CursorLine, Over;
    if bss == [] {
      OverNone(d.spec.cursor);
    } else {
      var bs := bss[0];
      assert forall b <- bs :: b in AllBindings(bss);
      ReadsCursorLine(d, bs, pad);
      ReadsCursor(d.(spec := d.spec.(cursor := Over(d.spec.cursor, bs))), bss[1..], pad);
      OverAppend(d.spec.cursor, bs, AllBindings(bss[1..]));
      var ls := CursorLines(bss, pad);
      assert ls[0] == CursorLine(bs, pad) && ls[1..] == CursorLines(bss[1..], pad);
    }
  }

  /** The draft that the lines of a spec give. */
  function Drafted(spec: SortSpec, declared: seq<string>): Draft {
    Draft(spec.(keys := Bare(spec.keys)), declared)
  }

  lemma ReadsMiddle(d: Draft, declared: seq<string>, spec: SortSpec, pad: string)
    requires Terms(declared) && Terms(spec.defaultBy) && NoSpaceAround(spec.tiebreak) && Blanks(pad)
    ensures AddLines(d, MiddleLines(spec, declared, pad)) ==
            Ok(Draft(d.spec.(tiebreak := spec.tiebreak, defaultBy := spec.defaultBy), d.nullable + declared))
  {
    hide AddLine, JoinTerms, Terms, PadAll, Pad;
    var ls := MiddleLines(spec, declared, pad);
    var a, b, c := ls[0], ls[1], ls[2];
    ReadsNullable(d, declared, pad);
    var d1 := d.(nullable := d.nullable + declared);
    ReadsTiebreak(d1, spec.tiebreak, pad);
    var d2 := d1.(spec := d1.spec.(tiebreak := spec.tiebreak));
    ReadsDefault(d2, spec.defaultBy, pad);
    var d3 := d2.(spec := d2.spec.(defaultBy := spec.defaultBy));
    hide MiddleLines;
    assert ls == [a, b, c] && [a, b, c][1..] == [b, c] && [b, c][1..] == [c] && [c][1..] == [];
    assert AddLines(d3, []) == Ok(d3);
    assert AddLines(d2, [c]) == Ok(d3);
    assert AddLines(d1, [b, c]) == Ok(d3);
  }

  lemma OverAll(cursor: map<string, string>, bs: seq<Binding>)
    requires forall c :: Find(cursor, c) == LastBinding(bs, c)
    ensures Over(map[], bs) == cursor
  {
    hide Over, LastBinding;
    var got := Over(map[], bs);
    forall c ensures Find(got, c) == Find(cursor, c) {
      LaterWins(map[], bs, c);
    }
    assert forall c :: Find(got, c) == Find(cursor, c) ==>
      (c in got <==> c in cursor) && (c in got ==> got[c] == cursor[c]);
  }

  /** Writing a spec and reading the lines gives the spec back. */
  lemma LinesReadBack(spec: SortSpec, declared: seq<string>, bss: seq<seq<Binding>>, pad: string)
    requires Writable(spec, declared, bss) && Blanks(pad)
    ensures AddLines(EmptyDraft(spec.name), Lines(spec, declared, bss, pad)) == Ok(Drafted(spec, declared))
    ensures Described(Drafted(spec, declared)) == spec
  {
    var d0 := EmptyDraft(spec.name);
    var a, b, e := ["sort:" + spec.name], KeyLines(spec.keys, pad), CursorLines(bss, pad);
    var c := MiddleLines(spec, declared, pad);
    ReadsName(d0, spec.name);
    hide AddLine, IsBinding, Terms, NoSpaceAround, Restrict, KeyLines, CursorLines, MiddleLines, Bare, Over,
      WithNullable, IsKey, AllBindings, LastBinding, Find;
    assert a[1..] == [] && AddLines(d0, []) == Ok(d0) && AddLines(d0, a) == Ok(d0);
    hide AddLines;
    ReadsKeys(d0, spec.keys, pad);
    assert [] + Bare(spec.keys) == Bare(spec.keys);
    var d1 := d0.(spec := d0.spec.(keys := Bare(spec.keys)));
    ReadsMiddle(d1, declared, spec, pad);
    assert [] + declared == declared;
    var d2 := Draft(d1.spec.(tiebreak := spec.tiebreak, defaultBy := spec.defaultBy), declared);
    ReadsCursor(d2, bss, pad);
    OverAll(spec.cursor, AllBindings(bss));
    AddLinesAppend(d0, a, b);
    AddLinesAppend(d0, a + b, c);
    AddLinesAppend(d0, a + b + c, e);
    NullableAgain(spec.keys, declared);
  }

  lemma {:induction false} NullableAgain(keys: seq<SortKey>, declared: seq<string>)
    requires forall k <- keys :: k.nullable == Restrict(k.columns, declared)
    ensures WithNullable(Bare(keys), declared) == keys
  {
    hide Restrict;
    if keys != [] {
      assert keys[0] in keys && forall k <- keys[1..] :: k in keys;
      NullableAgain(keys[1..], declared);
      var again := WithNullable(Bare(keys), declared);
      assert Bare(keys)[1..] == Bare(keys[1..]);
      assert again[1..] == WithNullable(Bare(keys[1..]), declared);
      assert again == [again[0]] + again[1..] && keys == [keys[0]] + keys[1..];
    }
  }

  // ---- Which lines are refused ----

  /** A key line has a colon behind the name and every binding of a cursor line an equals sign. */
  predicate IsWellFormed(l: string) {
    && ("key " <= l ==> ':' in l[4..])
    && ("cursor:" <= l ==> forall t <- Split(l[7..]) :: '=' in t)
  }

  lemma CutExactlyWhen(s: string, sep: char)
    ensures Cut(s, sep).Some? <==> sep in s
  {
    var i := IndexFrom(s, sep, 0);
    assert i == |s| ==> forall k :: 0 <= k < |s| ==> s[k] != sep;
  }

  lemma {:induction false} BindingsReadExactlyWhen(cursor: map<string, string>, ts: seq<string>)
    ensures AddBindings(cursor, ts).Ok? <==> forall t <- ts :: '=' in t
    decreases |ts|
  {
    hide Cut, TrimSpace;
    if ts != [] {
      CutExactlyWhen(ts[0], '=');
      assert forall t :: t in ts <==> t == ts[0] || t in ts[1..];
      if Cut(ts[0], '=').Some? {
        var (c, arg) := Cut(ts[0], '=').value;
        BindingsReadExactlyWhen(cursor[TrimSpace(c) := TrimSpace(arg)], ts[1..]);
      }
    }
  }

  lemma LineReadsExactlyWhen(d: Draft, l: string)
    ensures AddLine(d, l).Ok? <==> IsWellFormed(l)
  {
    hide Cut, Split, AddBindings, TrimSpace;
    if "key " <= l {
      assert l[0] == 'k';
      CutExactlyWhen(l[4..], ':');
    } else if "cursor:" <= l {
      assert l[0] == 'c';
      BindingsReadExactlyWhen(d.spec.cursor, Split(l[7..]));
    }
  }

  lemma {:induction false} LinesReadExactlyWhen(d: Draft, lines: seq<string>)
    ensures AddLines(d, lines).Ok? <==> forall l <- lines :: IsWellFormed(l)
    decreases |lines|
  {
    hide AddLine, IsWellFormed;
    if lines != [] {
      LineReadsExactlyWhen(d, lines[0]);
      assert forall l :: l in lines <==> l == lines[0] || l in lines[1..];
      if AddLine(d, lines[0]).Ok? {
        LinesReadExactlyWhen(AddLine(d, lines[0]).value, lines[1..]);
      }
    }
  }

  // ---- An example ----

  function EmptyKeySpec(): SortSpec {
    SortSpec("s", [SortKey("a", [], [])], ["id"], map["id" := "c"], "")
  }

  lemma EmptyKeyIsWritable()
    ensures Writable(EmptyKeySpec(), [], [[("id", "c")]])
  {
    var b: Binding := ("id", "c");
    assert IsTerm("id") && IsTerm("c") && IsBinding(b);
    hide IsTerm;
    assert [[b]][1..] == [] && AllBindings([]) == [];
    assert AllBindings([[b]]) == [b] + AllBindings([[b]][1..]) == [b];
    assert [b][..0] == [];
    assert forall c :: LastBinding([b], c) == (if c == "id" then Some("c") else LastBinding([], c));
  }

  lemma EmptyKeyLines()
    ensures KeyLines([SortKey("a", [], [])], "") == ["key a:"]
    ensures CursorLines([[("id", "c")]], "") == ["cursor:id=c"]
  {
    var b: Binding := ("id", "c");
    assert [[b]][1..] == [] && [SortKey("a", [], [])][1..] == [];
    assert PadAll("", []) == [] && JoinTerms([]) == "";
    assert Pad("", "a") + [':'] + "" == "a:";
    assert KeyLine(SortKey("a", [], []), "") == "key " + "a:" == "key a:" && KeyLines([], "") == [];
    assert "id" + "" + ['='] + ("" + "c") == "id=c" && BindingTexts([b], "") == ["id=c"];
    assert Pad("", "id=c") == "id=c" && PadAll("", ["id=c"]) == ["id=c"] && JoinTerms(["id=c"]) == "id=c";
    assert "cursor:" + "id=c" == "cursor:id=c" && CursorLines([], "") == [];
  }

  lemma EmptyKeyIsWritten()
    ensures Lines(EmptyKeySpec(), [], [[("id", "c")]], "") ==
            ["sort:s", "key a:", "nullable:", "tiebreak:", "default:id", "cursor:id=c"]
  {
    EmptyKeyLines();
    hide KeyLines, CursorLines;
    assert Pad("", "id") == "id" && PadAll("", ["id"]) == ["id"] && PadAll("", []) == [] && Pad("", "") == "";
    assert JoinTerms(["id"]) == "id" && JoinTerms([]) == "";
    assert "sort:" + "s" == "sort:s" && "default:" + "id" == "default:id";
    assert "nullable:" + "" == "nullable:" && "tiebreak:" + "" == "tiebreak:";
  }

  /** A key without columns is accepted. */
  lemma EmptyKeyIsAccepted()
    ensures var r := AddLines(EmptyDraft("s"), ["sort:s", "key a:", "nullable:", "tiebreak:", "default:id",
                                          "cursor:id=c"]);
            r.Ok? && AcceptedSpec(Described(r.value)) && Described(r.value).keys == [SortKey("a", [], [])]
  {
    hide AddLines, Lines, Described, Writable;
    EmptyKeyIsWritable();
    EmptyKeyIsWritten();
    LinesReadBack(EmptyKeySpec(), [], [[("id", "c")]], "");
    assert !("{" <= "c") by { assert "c"[0] == 'c'; }
  }
}
