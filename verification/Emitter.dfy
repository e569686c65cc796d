/** Choosing the names of the generated files. */
module Emitter {
  import opened Text

  /** A query file by the base names of its directory and of itself. */
  datatype Source = Source(parent: string, base: string)

  function Key(f: Source): string {
    f.parent + "_" + f.base
  }

  function Keys(files: seq<Source>): (ks: seq<string>)
    ensures |ks| == |files| && forall i :: 0 <= i < |files| ==> ks[i] == Key(files[i])
  {
    seq(|files|, i requires 0 <= i < |files| => Key(files[i]))
  }

  function Count(keys: seq<string>, k: string): nat {
    if keys == [] then 0
    else Count(keys[..|keys| - 1], k) + if keys[|keys| - 1] == k then 1 else 0
  }

  function Numbered(k: string, n: nat): string {
    k + "." + Itoa(n)
  }

  /** A key that occurs once is used as it is; the others are numbered from zero. */
  function NameAt(keys: seq<string>, i: nat): string
    requires i < |keys|
  {
    if Count(keys, keys[i]) == 1 then keys[i] else Numbered(keys[i], Count(keys[..i], keys[i]))
  }

  predicate BasesDiffer(files: seq<Source>) {
    forall i, j :: 0 <= i < j < |files| ==> files[i].base != files[j].base
  }

  /** The names chosen, without the ".go" that they all get. */
  function Names(files: seq<Source>): (ns: seq<string>)
    ensures |ns| == |files|
  {
    if BasesDiffer(files) then seq(|files|, i requires 0 <= i < |files| => files[i].base)
    else seq(|files|, i requires 0 <= i < |files| => NameAt(Keys(files), i))
  }

  // ---- Counting ----

  lemma CountStep(keys: seq<string>, i: nat, k: string)
    requires i < |keys|
    ensures Count(keys[..i + 1], k) == Count(keys[..i], k) + if keys[i] == k then 1 else 0
  {
    assert keys[..i + 1][..i] == keys[..i];
  }

  lemma {:induction false} CountGrows(keys: seq<string>, i: nat, j: nat, k: string)
    requires i <= j <= |keys|
    ensures Count(keys[..i], k) <= Count(keys[..j], k)
    ensures forall m :: i <= m < j && keys[m] == k ==> Count(keys[..i], k) < Count(keys[..j], k)
    decreases j
  {
    if i < j {
      CountGrows(keys, i, j - 1, k);
      CountStep(keys, j - 1, k);
    }
  }

  /** The number that an occurrence of a key gets is below the key's count, and tells it from the other occurrences. */
  lemma NumberIsOwn(keys: seq<string>, i: nat, j: nat)
    requires i < j < |keys| && keys[i] == keys[j]
    ensures Count(keys[..i], keys[i]) < Count(keys[..j], keys[i]) < Count(keys, keys[i])
  {
    CountGrows(keys, i, j, keys[i]);
    CountGrows(keys, j, |keys|, keys[i]);
    assert keys[..|keys|] == keys;
  }

  lemma NumberIsBelow(keys: seq<string>, i: nat)
    requires i < |keys|
    ensures Count(keys[..i], keys[i]) < Count(keys, keys[i])
  {
    CountGrows(keys, i, |keys|, keys[i]);
    assert keys[..|keys|] == keys;
  }

  /** Every number below a key's count is given to some occurrence. */
  lemma {:induction false} NumberIsUsed(keys: seq<string>, k: string, n: nat) returns (i: nat)
    requires n < Count(keys, k)
    ensures i < |keys| && keys[i] == k && Count(keys[..i], k) == n
    decreases |keys|
  {
    var last := |keys| - 1;
    if n < Count(keys[..last], k) {
      i := NumberIsUsed(keys[..last], k, n);
      assert keys[..last][..i] == keys[..i];
    } else {
      i := last;
    }
  }

  // ---- When the names differ ----

  /** A key that occurs once is spelled like a number of a key that occurs more often. */
  ghost predicate Clashes(keys: seq<string>) {
    exists i, j, n: nat :: 0 <= i < |keys| && 0 <= j < |keys| && Clash(keys, i, j, n)
  }

  ghost predicate Clash(keys: seq<string>, i: nat, j: nat, n: nat)
    requires i < |keys| && j < |keys|
  {
    Count(keys, keys[i]) == 1 && 1 < Count(keys, keys[j]) && n < Count(keys, keys[j]) && keys[i] == Numbered(keys[j], n)
  }

  lemma DigitsHaveNoDot(n: nat)
    ensures Itoa(n) == NatDigits(n) && forall k :: 0 <= k < |Itoa(n)| ==> Itoa(n)[k] != '.'
  {
    DigitsRoundTrip(n);
    forall k | 0 <= k < |Itoa(n)| ensures Itoa(n)[k] != '.' {
      assert Itoa(n)[k] in Itoa(n);
    }
  }

  lemma NoDotBehind(a: string, x: string)
    requires '.' !in x
    ensures var s := a + "." + x; s[|a|] == '.' && forall m :: |a| < m < |s| ==> s[m] != '.'
  {
    var s := a + "." + x;
    forall m | |a| < m < |s| ensures s[m] != '.' {
      assert s[m] == x[m - |a| - 1];
    }
  }

  /** The last dot separates the key from the number. */
  lemma LastDot(a: string, x: string, b: string, y: string)
    requires a + "." + x == b + "." + y && '.' !in x && '.' !in y
    ensures a == b && x == y
  {
    NoDotBehind(a, x);
    NoDotBehind(b, y);
    var s := a + "." + x;
    assert |a| == |b|;
    assert a == s[..|a|] && b == s[..|b|] && x == s[|a| + 1..] && y == s[|b| + 1..];
  }

  lemma NumberedApart(k: string, n: nat, k': string, n': nat)
    requires Numbered(k, n) == Numbered(k', n')
    ensures k == k' && n == n'
  {
    hide Itoa;
    DigitsHaveNoDot(n);
    DigitsHaveNoDot(n');
    LastDot(k, Itoa(n), k', Itoa(n'));
    ItoaInjective(n, n');
  }

  /** Two names are equal only in a clash. */
  lemma SameNameClashes(keys: seq<string>, i: nat, j: nat)
    requires i < j < |keys| && NameAt(keys, i) == NameAt(keys, j)
    ensures Clashes(keys)
  {
    hide Count, Numbered;
    NumberIsBelow(keys, i);
    NumberIsBelow(keys, j);
    if keys[i] == keys[j] {
      NumberIsOwn(keys, i, j);
      NumberedApart(keys[i], Count(keys[..i], keys[i]), keys[j], Count(keys[..j], keys[j]));
    } else if Count(keys, keys[i]) == 1 {
      assert Clash(keys, i, j, Count(keys[..j], keys[j]));
    } else if Count(keys, keys[j]) == 1 {
      assert Clash(keys, j, i, Count(keys[..i], keys[i]));
    } else {
      NumberedApart(keys[i], Count(keys[..i], keys[i]), keys[j], Count(keys[..j], keys[j]));
    }
  }

  lemma ClashIsSameName(keys: seq<string>, i: nat, j: nat, n: nat) returns (m: nat)
    requires i < |keys| && j < |keys| && Clash(keys, i, j, n)
    ensures m < |keys| && m != i && NameAt(keys, m) == NameAt(keys, i)
  {
    hide Numbered;
    m := NumberIsUsed(keys, keys[j], n);
  }

  /** The names chosen differ exactly when the base names do, or no prefixed name clashes with a numbered one. */
  lemma NamesDifferExactlyWhen(files: seq<Source>)
    ensures AllDistinct(Names(files)) <==> BasesDiffer(files) || !Clashes(Keys(files))
  {
    hide NameAt;
    var keys, names := Keys(files), Names(files);
    if !BasesDiffer(files) {
      if !AllDistinct(names) {
        var i, j :| 0 <= i < j < |names| && names[i] == names[j];
        SameNameClashes(keys, i, j);
      }
      if Clashes(keys) {
        var i, j, n: nat :| 0 <= i < |keys| && 0 <= j < |keys| && Clash(keys, i, j, n);
        var m := ClashIsSameName(keys, i, j, n);
        assert names[m] == names[i];
      }
    }
  }

  /** Names of SQL files never clash. */
  lemma SqlNamesDiffer(files: seq<Source>)
    requires forall f <- files :: HasSuffix(f.base, ".sql")
    ensures AllDistinct(Names(files))
  {
    hide Count;
    var keys := Keys(files);
    forall i: nat, j: nat, n: nat | i < |keys| && j < |keys| ensures !Clash(keys, i, j, n) {
      assert files[i] in files;
      SqlIsNotNumbered(files[i].parent, files[i].base, keys[j], n);
    }
    NamesDifferExactlyWhen(files);
  }

  lemma SqlIsNotNumbered(parent: string, base: string, k: string, n: nat)
    requires HasSuffix(base, ".sql")
    ensures parent + "_" + base != Numbered(k, n)
  {
    hide Itoa, NatDigits;
    DigitsRoundTrip(n);
    DigitsHaveNoDot(n);
    var s, d := parent + "_" + base, Itoa(n);
    assert base[|base| - 4..][3] == 'l';
    assert s[|s| - 1] == base[|base| - 1] == 'l';
    assert d[|d| - 1] in d;
    assert Numbered(k, n)[|Numbered(k, n)| - 1] == d[|d| - 1];
  }

  /** Without the suffix, two files can get the same name. */
  lemma OtherNamesClash()
    ensures !AllDistinct(Names([Source("a", "q"), Source("a", "q"), Source("a", "q.0")]))
  {
    var files := [Source("a", "q"), Source("a", "q"), Source("a", "q.0")];
    var keys := Keys(files);
    assert Key(files[0]) == "a_q" && Key(files[2]) == "a_q.0";
    assert files[0].base == files[1].base;
    CountsOf(keys, "a_q");
    CountsOf(keys, "a_q.0");
    assert Itoa(0) == "0" && Numbered("a_q", 0) == "a_q.0";
    assert Clash(keys, 2, 0, 0);
    NamesDifferExactlyWhen(files);
  }

  lemma CountsOf(keys: seq<string>, k: string)
    requires |keys| == 3
    ensures Count(keys, k) == (if keys[0] == k then 1 else 0) + (if keys[1] == k then 1 else 0) + if keys[2] ==
            k then 1 else 0
  {
    assert keys[..3] == keys && keys[..0] == [];
    CountStep(keys, 2, k);
    CountStep(keys, 1, k);
    CountStep(keys, 0, k);
  }

  // ---- The algorithm ----

  /** What one more key does to the names chosen so far. */
  lemma NameStep(keys: seq<string>, i: nat, j: nat)
    requires j < i < |keys|
    ensures var k, old', new' := keys[i], NameAt(keys[..i], j), NameAt(keys[..i + 1], j);
            if keys[j] == k && Count(keys[..i], k) == 1 then old' == k && new' == k + ".0" && Count(keys[..j], k) == 0
            else new' == old'
  {
    CountStep(keys, i, keys[j]);
    assert keys[..i][..j] == keys[..j] && keys[..i + 1][..j] == keys[..j];
    NumberIsBelow(keys[..i], j);
    assert Itoa(0) == "0" && Numbered(keys[j], 0) == keys[j] + ".0";
  }

  lemma NewName(keys: seq<string>, i: nat)
    requires i < |keys|
    ensures NameAt(keys[..i + 1], i) ==
            if Count(keys[..i], keys[i]) == 0 then keys[i] else Numbered(keys[i], Count(keys[..i], keys[i]))
  {
    CountStep(keys, i, keys[i]);
    assert keys[..i + 1][..i] == keys[..i];
  }

  /** The bookkeeping after some keys: how often each occurred, and where first. */
  ghost predicate Tracks(keys: seq<string>, used: map<string, nat>, first: map<string, nat>) {
    forall k :: && (k in used <==> Count(keys, k) > 0) && (k in first <==> k in used)
                && (k in used ==> used[k] == Count(keys, k) && first[k] < |keys| && keys[first[k]] == k)
  }

  lemma TracksStep(keys: seq<string>, i: nat, used: map<string, nat>, first: map<string, nat>)
    requires i < |keys| && Tracks(keys[..i], used, first)
    ensures var k := keys[i];
            if k in used then Tracks(keys[..i + 1], used[k := used[k] + 1], first)
            else Tracks(keys[..i + 1], used[k := 1], first[k := i])
  {
    hide Count;
    forall k {
      CountStep(keys, i, k);
    }
  }

  lemma TracksAt(keys: seq<string>, i: nat, used: map<string, nat>, first: map<string, nat>)
    requires i < |keys| && Tracks(keys[..i], used, first)
    ensures var k := keys[i];
            && (k in used <==> Count(keys[..i], k) > 0)
            && (k in used ==> used[k] == Count(keys[..i], k) && k in first && first[k] < i && keys[first[k]] == k)
  {
  }

  lemma NothingTracked(keys: seq<string>)
    ensures Tracks(keys[..0], map[], map[])
  {
  }

  /** A key that occurred once occurred in one place. */
  lemma FirstIsOnly(keys: seq<string>, i: nat)
    requires i < |keys|
    ensures forall j, m :: 0 <= j < m < i && keys[j] == keys[m] ==> Count(keys[..i], keys[j]) > 1
  {
    forall j, m | 0 <= j < m < i && keys[j] == keys[m] ensures Count(keys[..i], keys[j]) > 1 {
      NumberIsOwn(keys[..i], j, m);
    }
  }

  /** Whether two files have the same base name. */
  method HasBaseCollision(files: seq<Source>) returns (collision: bool)
    ensures collision <==> !BasesDiffer(files)
  {
    var seen: set<string> := {};
    collision := false;
    for i := 0 to |files|
      invariant forall b :: b in seen <==> exists j :: 0 <= j < i && files[j].base == b
      invariant collision <==> !BasesDiffer(files[..i])
    {
      if files[i].base in seen {
        collision := true;
      }
      seen := seen + {files[i].base};
    }
    assert files[..|files|] == files;
  }

  /** The prefixed names, numbered where they occur more than once. */
  method NumberNames(files: seq<Source>) returns (outNames: array<string>)
    ensures fresh(outNames) && outNames.Length == |files|
    ensures forall j :: 0 <= j < |files| ==> outNames[j] == NameAt(Keys(files), j)
  {
    hide Itoa, NatDigits, Count, NameAt, Tracks;
    outNames := new string[|files|];
    var usedNames: map<string, nat> := map[];
    var firstIdx: map<string, nat> := map[];
    ghost var keys := Keys(files);
    NothingTracked(keys);
    for i := 0 to |files|
      invariant Tracks(keys[..i], usedNames, firstIdx)
      invariant forall j :: 0 <= j < i ==> outNames[j] == NameAt(keys[..i], j)
    {
      var out := files[i].parent + "_" + files[i].base;
      TracksAt(keys, i, usedNames, firstIdx);
      TracksStep(keys, i, usedNames, firstIdx);
      NewName(keys, i);
      FirstIsOnly(keys, i);
      forall j | 0 <= j < i { NameStep(keys, i, j); }
      var ok := out in usedNames;
      var n := if ok then usedNames[out] else 0;
      usedNames := usedNames[out := n + 1];
      if ok {
        var firstI := firstIdx[out];
        outNames[i] := out + "." + Itoa(n);
        if n == 1 {
          outNames[firstI] := outNames[firstI] + ".0";
        }
      } else {
        outNames[i] := out;
        firstIdx := firstIdx[out := i];
      }
    }
    assert keys[..|keys|] == keys;
  }

  /** The files in front of i with the same prefixed name. */
  function Before(files: seq<Source>, i: nat): set<nat>
    requires i < |files|
  {
    set j: nat | j < i && files[j].parent + "_" + files[j].base == files[i].parent + "_" + files[i].base
  }

  predicate IsAlone(files: seq<Source>, i: nat)
    requires i < |files|
  {
    forall j :: 0 <= j < |files| && j != i ==>
      files[j].parent + "_" + files[j].base != files[i].parent + "_" + files[i].base
  }

  function Among(keys: seq<string>, i: nat, k: string): set<nat>
    requires i <= |keys|
  {
    set j: nat | j < i && keys[j] == k
  }

  lemma {:induction false} CountIsSize(keys: seq<string>, i: nat, k: string)
    requires i <= |keys|
    ensures Count(keys[..i], k) == |Among(keys, i, k)|
    decreases i
  {
    if i > 0 {
      CountIsSize(keys, i - 1, k);
      CountStep(keys, i - 1, k);
      assert Among(keys, i, k) == Among(keys, i - 1, k) + if keys[i - 1] == k then {i - 1} else {};
    }
  }

  lemma AloneIsOnce(keys: seq<string>, i: nat)
    requires i < |keys|
    ensures Count(keys, keys[i]) == 1 <==> forall j :: 0 <= j < |keys| && j != i ==> keys[j] != keys[i]
  {
    CountIsSize(keys, |keys|, keys[i]);
    assert keys[..|keys|] == keys;
    var all := Among(keys, |keys|, keys[i]);
    assert i in all;
    if |all| == 1 {
      forall j: nat | j < |keys| && keys[j] == keys[i] ensures j == i {
        OnlyMember(all, i, j);
      }
    } else {
      assert all != {i};
    }
  }

  lemma OnlyMember(all: set<nat>, i: nat, j: nat)
    requires |all| == 1 && i in all && j in all
    ensures i == j
  {
    assert |all - {i}| == 0;
  }

  /**
    The name of a file among colliding ones: directory and base name, and behind a dot how
    many files in front of it have the same, unless it is alone.
   */
  lemma PrefixedName(files: seq<Source>, i: nat)
    requires i < |files| && !BasesDiffer(files)
    ensures Names(files)[i] == files[i].parent + "_" + files[i].base
              + if IsAlone(files, i) then "" else "." + Itoa(|Before(files, i)|)
  {
    hide Count, Itoa;
    var keys := Keys(files);
    var k := files[i].parent + "_" + files[i].base;
    assert keys[i] == k && k + "" == k;
    CountIsSize(keys, i, k);
    assert Among(keys, i, k) == Before(files, i);
    AloneIsOnce(keys, i);
    assert k + "." + Itoa(|Before(files, i)|) == k + ("." + Itoa(|Before(files, i)|));
  }

  method ChooseOutputFiles(files: seq<Source>) returns (outs: seq<string>)
    ensures |outs| == |files| && forall i :: 0 <= i < |files| ==> outs[i] == Names(files)[i] + ".go"
    ensures BasesDiffer(files) ==> forall i :: 0 <= i < |files| ==> outs[i] == files[i].base + ".go"
    ensures !BasesDiffer(files) ==> forall i :: 0 <= i < |files| ==>
              outs[i] == files[i].parent + "_" + files[i].base
                + (if IsAlone(files, i) then "" else "." + Itoa(|Before(files, i)|)) + ".go"
  {
    hide NameAt, Keys;
    var collision := HasBaseCollision(files);
    if !collision {
      var outNames := new string[|files|];
      for i := 0 to |files|
        invariant forall j :: 0 <= j < i ==> outNames[j] == files[j].base + ".go"
      {
        outNames[i] := files[i].base + ".go";
      }
      return outNames[..];
    }

    forall i | 0 <= i < |files| { PrefixedName(files, i); }
    hide IsAlone, Before, Itoa;
    var outNames := NumberNames(files);
    for i := 0 to |files|
      invariant forall j :: 0 <= j < |files| ==> outNames[j] == Names(files)[j] + if j < i then ".go" else ""
    {
      outNames[i] := outNames[i] + ".go";
    }
    return outNames[..];
  }
}
