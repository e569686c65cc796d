/** Results, and the string helpers of Go's standard library that the other modules rely on. */
module Text {

  datatype Option<+T> = None | Some(value: T)

  /** Usable with `:-`. */
  datatype Result<+T, +E> = Ok(value: T) | Err(error: E) {
    predicate IsFailure() {
      Err?
    }

    function PropagateFailure<U>(): Result<U, E>
      requires Err?
    {
      Err(error)
    }

    function Extract(): T
      requires Ok?
    {
      value
    }
  }

  /** The ASCII characters that strings.TrimSpace removes. */
  predicate IsSpace(c: char) {
    c == ' ' || c == '\t' || c == '\n' || c == '\r' || c as int == 11 || c as int == 12
  }

  predicate IsDigit(c: char) {
    '0' <= c <= '9'
  }

  /** A letter or underscore. */
  predicate IsLetter(c: char) {
    c == '_' || 'a' <= c <= 'z' || 'A' <= c <= 'Z'
  }

  predicate IsIdentChar(c: char) {
    IsLetter(c) || IsDigit(c)
  }

  predicate IsIdent(s: string) {
    s != "" && forall c <- s :: IsIdentChar(c)
  }

  function TrimLeft(s: string): string {
    if s != "" && IsSpace(s[0]) then TrimLeft(s[1..]) else s
  }

  function TrimRight(s: string): string {
    if s != "" && IsSpace(s[|s| - 1]) then TrimRight(s[..|s| - 1]) else s
  }

  function TrimSpace(s: string): string {
    TrimRight(TrimLeft(s))
  }

  /** The trimmed string, unless it is blank. */
  function Trimmed(s: string): seq<string> {
    if TrimSpace(s) == "" then [] else [TrimSpace(s)]
  }

  /** The trimmed strings among pieces that are not blank. */
  function NonBlank(pieces: seq<string>): seq<string> {
    if pieces == [] then [] else NonBlank(pieces[..|pieces| - 1]) + Trimmed(pieces[|pieces| - 1])
  }

  lemma NonBlankAppend(pieces: seq<string>, p: string)
    ensures NonBlank(pieces + [p]) == NonBlank(pieces) + Trimmed(p)
  {
    assert (pieces + [p])[..|pieces|] == pieces;
  }

  lemma TrimmedKeeps(t: string)
    requires t != "" && TrimSpace(t) == t
    ensures Trimmed(t) == [t]
  {
  }

  lemma {:induction false} NonBlankKeeps(ts: seq<string>)
    requires forall t <- ts :: t != "" && TrimSpace(t) == t
    ensures NonBlank(ts) == ts
  {
    hide TrimSpace, Trimmed;
    if ts != [] {
      var init, last := ts[..|ts| - 1], ts[|ts| - 1];
      assert last in ts;
      forall t <- init ensures t != "" && TrimSpace(t) == t {
        assert t in ts;
      }
      NonBlankKeeps(init);
      TrimmedKeeps(last);
      assert ts == init + [last];
    }
  }

  lemma {:induction false} TrimLeftStops(s: string)
    ensures TrimLeft(s) == "" || !IsSpace(TrimLeft(s)[0])
  {
    if s != "" && IsSpace(s[0]) {
      TrimLeftStops(s[1..]);
    }
  }

  lemma {:induction false} TrimRightStops(s: string)
    ensures TrimRight(s) <= s && (TrimRight(s) == "" || !IsSpace(TrimRight(s)[|TrimRight(s)| - 1]))
  {
    if s != "" && IsSpace(s[|s| - 1]) {
      TrimRightStops(s[..|s| - 1]);
    }
  }

  lemma TrimSpaceTwice(s: string)
    ensures TrimSpace(TrimSpace(s)) == TrimSpace(s)
  {
    TrimLeftStops(s);
    TrimRightStops(TrimLeft(s));
    TrimKeeps(TrimSpace(s));
  }

  /** A string with no space at either end is left alone. */
  lemma TrimKeeps(s: string)
    requires s == "" || (!IsSpace(s[0]) && !IsSpace(s[|s| - 1]))
    ensures TrimSpace(s) == s
  {
  }

  predicate Blanks(s: string) {
    forall c <- s :: IsSpace(c)
  }

  /** The string with the same padding on both sides. */
  function Pad(pad: string, s: string): string {
    pad + s + pad
  }

  lemma {:induction false} TrimLeftPad(pad: string, s: string)
    requires Blanks(pad)
    ensures TrimLeft(pad + s) == TrimLeft(s)
  {
    if pad == "" {
      assert pad + s == s;
    } else {
      assert pad[0] in pad && (pad + s)[1..] == pad[1..] + s;
      TrimLeftPad(pad[1..], s);
    }
  }

  lemma {:induction false} TrimRightPad(s: string, pad: string)
    requires Blanks(pad)
    ensures TrimRight(s + pad) == TrimRight(s)
  {
    if pad == "" {
      assert s + pad == s;
    } else {
      var n := |pad| - 1;
      assert pad[n] in pad && (s + pad)[|s| + n] == pad[n] && (s + pad)[..|s| + n] == s + pad[..n];
      TrimRightPad(s, pad[..n]);
    }
  }

  predicate NoSpaceAround(s: string) {
    s == "" || (!IsSpace(s[0]) && !IsSpace(s[|s| - 1]))
  }

  /** Trimming takes away exactly the padding. */
  lemma TrimPad(a: string, s: string, b: string)
    requires Blanks(a) && Blanks(b) && NoSpaceAround(s)
    ensures TrimSpace(a + s + b) == s
  {
    assert a + s + b == a + (s + b);
    TrimLeftPad(a, s + b);
    if s == "" {
      assert s + b == b && b + "" == b;
      TrimLeftPad(b, "");
    } else {
      assert (s + b)[0] == s[0];
      TrimRightPad(s, b);
    }
  }

  lemma {:induction false} TrimLeftIsSuffix(s: string)
    ensures |TrimLeft(s)| <= |s|
    ensures var n := |s| - |TrimLeft(s)|; Blanks(s[..n]) && s[n..] == TrimLeft(s)
  {
    if s != "" && IsSpace(s[0]) {
      TrimLeftIsSuffix(s[1..]);
      var n := |s| - |TrimLeft(s)|;
      assert s[..n] == [s[0]] + s[1..][..n - 1] && s[n..] == s[1..][n - 1..];
    }
  }

  lemma {:induction false} TrimRightReaches(s: string, p: string)
    requires p <= s && p != "" && !IsSpace(p[|p| - 1])
    ensures p <= TrimRight(s)
  {
    if IsSpace(s[|s| - 1]) {
      TrimRightReaches(s[..|s| - 1], p);
    }
  }

  lemma TrimLeftKeeps(s: string)
    requires s != "" && !IsSpace(s[0])
    ensures TrimLeft(s) == s
  {
  }

  /** What a trimmed string starts with follows the blanks of the string, and conversely. */
  lemma TrimStarts(s: string, p: string) returns (a: string, b: string)
    requires p != "" && p <= TrimSpace(s)
    ensures Blanks(a) && s == a + p + b
  {
    hide TrimLeft, TrimRight;
    TrimLeftIsSuffix(s);
    TrimRightStops(TrimLeft(s));
    var t := TrimLeft(s);
    a, b := s[..|s| - |t|], t[|p|..];
    assert t == p + b && s == a + t;
    assert a + (p + b) == a + p + b;
  }

  lemma TrimReaches(a: string, p: string, b: string)
    requires Blanks(a) && p != "" && !IsSpace(p[0]) && !IsSpace(p[|p| - 1])
    ensures p <= TrimSpace(a + p + b)
  {
    hide TrimLeft, TrimRight;
    assert a + p + b == a + (p + b) && (p + b)[0] == p[0];
    TrimLeftPad(a, p + b);
    TrimLeftKeeps(p + b);
    TrimRightReaches(p + b, p);
  }

  function NatDigits(n: nat): (s: string)
    ensures s != ""
  {
    var last := [('0' as int + n % 10) as char];
    if n < 10 then last else NatDigits(n / 10) + last
  }

  /** The value of the digits of s from i on, behind digits of value acc; None if another character occurs. */
  function DigitsFrom(s: string, i: nat, acc: nat): Option<nat>
    requires i <= |s|
    decreases |s| - i
  {
    if i == |s| then Some(acc)
    else if IsDigit(s[i]) then DigitsFrom(s, i + 1, acc * 10 + (s[i] as int - '0' as int))
    else None
  }

  /** strconv.Itoa */
  function Itoa(n: int): (s: string)
    ensures s != ""
  {
    if n < 0 then "-" + NatDigits(-n) else NatDigits(n)
  }

  const MIN_INT := -0x8000_0000_0000_0000
  const MAX_INT := 0x7fff_ffff_ffff_ffff

  predicate IsInt(n: int) {
    MIN_INT <= n <= MAX_INT
  }

  /** strconv.Atoi on a 64-bit platform: an optional sign, at least one digit, and a value in range. */
  function Atoi(s: string): (r: Option<int>)
    ensures r.Some? ==> IsInt(r.value)
  {
    var start := if s != "" && (s[0] == '-' || s[0] == '+') then 1 else 0;
    if start == |s| then None
    else match DigitsFrom(s, start, 0)
      case None => None
      case Some(v) =>
        var n := if s[0] == '-' then 0 - v else v;
        if IsInt(n) then Some(n) else None
  }

  predicate AllDigits(s: string) {
    forall c <- s :: IsDigit(c)
  }

  lemma {:induction false} DigitsAppend(s: string, i: nat, acc: nat, c: char)
    requires i <= |s| && DigitsFrom(s, i, acc).Some? && IsDigit(c)
    ensures DigitsFrom(s + [c], i, acc) == Some(DigitsFrom(s, i, acc).value * 10 + (c as int - '0' as int))
    decreases |s| - i
  {
    if i < |s| {
      DigitsAppend(s, i + 1, acc * 10 + (s[i] as int - '0' as int), c);
    }
  }

  lemma {:induction false} DigitsPrefix(p: string, s: string, i: nat, acc: nat)
    requires i <= |s|
    ensures DigitsFrom(p + s, |p| + i, acc) == DigitsFrom(s, i, acc)
    decreases |s| - i
  {
    if i < |s| {
      assert (p + s)[|p| + i] == s[i];
      if IsDigit(s[i]) {
        DigitsPrefix(p, s, i + 1, acc * 10 + (s[i] as int - '0' as int));
      }
    }
  }

  lemma {:induction false} DigitsRoundTrip(n: nat)
    ensures AllDigits(NatDigits(n))
    ensures DigitsFrom(NatDigits(n), 0, 0) == Some(n)
  {
    if n < 10 {
      assert DigitsFrom(NatDigits(n), 1, n) == Some(n);
    } else {
      DigitsRoundTrip(n / 10);
      DigitsAppend(NatDigits(n / 10), 0, 0, ('0' as int + n % 10) as char);
    }
  }

  lemma ItoaRoundTrip(n: int)
    requires IsInt(n)
    ensures Atoi(Itoa(n)) == Some(n)
  {
    if n < 0 {
      DigitsRoundTrip(-n);
      DigitsPrefix("-", NatDigits(-n), 0, 0);
    } else {
      DigitsRoundTrip(n);
      assert NatDigits(n)[0] in NatDigits(n);
    }
  }

  lemma ItoaInjective(m: nat, n: nat)
    requires Itoa(m) == Itoa(n)
    ensures m == n
  {
    DigitsRoundTrip(m);
    DigitsRoundTrip(n);
  }

  /** The first index at or after i where s holds c, or |s|. */
  function IndexFrom(s: string, c: char, i: nat): (j: nat)
    requires i <= |s|
    ensures i <= j <= |s| && (j < |s| ==> s[j] == c) && forall k :: i <= k < j ==> s[k] != c
    decreases |s| - i
  {
    if i == |s| || s[i] == c then i else IndexFrom(s, c, i + 1)
  }

  /** The end of the digits of s from i on. */
  function DigitsEnd(s: string, i: nat): (j: nat)
    requires i <= |s|
    ensures i <= j <= |s|
    decreases |s| - i
  {
    if i < |s| && IsDigit(s[i]) then DigitsEnd(s, i + 1) else i
  }

  ghost predicate AllDistinct<T>(xs: seq<T>) {
    forall i, j :: 0 <= i < j < |xs| ==> xs[i] != xs[j]
  }

  predicate HasSuffix(s: string, t: string) {
    |t| <= |s| && s[|s| - |t|..] == t
  }
}
