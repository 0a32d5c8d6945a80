/** The parts of java.lang.String the pipelines rely on: split around one
    character, trim, and compareTo. A Java `char` is modelled as a Dafny `char`. */
module JavaString {

  /** The pieces of s between occurrences of sep, empty pieces included. */
  function SplitAll(s: string, sep: char): (parts: seq<string>)
    ensures |parts| == multiset(s)[sep] + 1
    ensures forall i :: 0 <= i < |parts| ==> sep !in parts[i]
    ensures Join(parts, sep) == s
    decreases |s|
  {
    if s == [] then [[]]
    else
      var rest := SplitAll(s[1..], sep);
      if s[0] == sep then
        SplitAtSep(s, sep, rest);
        [[]] + rest
      else
        SplitAtOther(s, sep, rest);
        [[s[0]] + rest[0]] + rest[1..]
  }

  /** A leading separator opens an empty first piece. */
  lemma {:induction false} SplitAtSep(s: string, sep: char, rest: seq<string>)
    requires s != [] && s[0] == sep
    requires |rest| == multiset(s[1..])[sep] + 1
    requires forall i :: 0 <= i < |rest| ==> sep !in rest[i]
    requires Join(rest, sep) == s[1..]
    ensures var parts := [[]] + rest;
            && |parts| == multiset(s)[sep] + 1
            && (forall i :: 0 <= i < |parts| ==> sep !in parts[i])
            && Join(parts, sep) == s
  {
    assert s == [s[0]] + s[1..];
    assert multiset(s) == multiset{sep} + multiset(s[1..]);
    assert ([[]] + rest)[1..] == rest;
  }

  /** Any other leading character joins the first piece. */
  lemma {:induction false} SplitAtOther(s: string, sep: char, rest: seq<string>)
    requires s != [] && s[0] != sep
    requires |rest| == multiset(s[1..])[sep] + 1
    requires forall i :: 0 <= i < |rest| ==> sep !in rest[i]
    requires Join(rest, sep) == s[1..]
    ensures var parts := [[s[0]] + rest[0]] + rest[1..];
            && |parts| == multiset(s)[sep] + 1
            && (forall i :: 0 <= i < |parts| ==> sep !in parts[i])
            && Join(parts, sep) == s
  {
    assert s == [s[0]] + s[1..];
    assert multiset(s) == multiset{s[0]} + multiset(s[1..]);
    var parts := [[s[0]] + rest[0]] + rest[1..];
    assert sep !in parts[0];
    assert forall i :: 1 <= i < |parts| ==> parts[i] == rest[i];
    JoinPrepend(s[0], rest, sep);
  }

  /** The pieces glued back together with the separator between them. */
  function Join(parts: seq<string>, sep: char): string
    requires |parts| >= 1
  {
    if |parts| == 1 then parts[0] else parts[0] + [sep] + Join(parts[1..], sep)
  }

  lemma {:induction false} JoinPrepend(c: char, parts: seq<string>, sep: char)
    requires |parts| >= 1
    ensures Join([[c] + parts[0]] + parts[1..], sep) == [c] + Join(parts, sep)
  {
    var q := [[c] + parts[0]] + parts[1..];
    assert q[1..] == parts[1..];
  }

  /** Splitting the joined pieces gives the pieces back, provided none of them
      holds the separator. */
  lemma {:induction false} SplitJoin(parts: seq<string>, sep: char)
    requires |parts| >= 1
    requires forall i :: 0 <= i < |parts| ==> sep !in parts[i]
    ensures SplitAll(Join(parts, sep), sep) == parts
    decreases |parts|, |parts[0]|
  {
    if |parts| == 1 {
      SplitNoSep(parts[0], sep);
    } else if parts[0] == [] {
      SplitJoin(parts[1..], sep);
      SplitJoinEmptyHead(parts, sep);
    } else {
      var q := [parts[0][1..]] + parts[1..];
      assert forall i :: 1 <= i < |q| ==> q[i] == parts[i];
      assert sep !in q[0];
      SplitJoin(q, sep);
      SplitJoinHead(parts, sep);
    }
  }

  /** Splitting step for an empty first piece. */
  lemma {:induction false} SplitJoinEmptyHead(parts: seq<string>, sep: char)
    requires |parts| >= 2 && parts[0] == []
    requires SplitAll(Join(parts[1..], sep), sep) == parts[1..]
    ensures SplitAll(Join(parts, sep), sep) == parts
  {
    var tail := Join(parts[1..], sep);
    assert Join(parts, sep) == [sep] + tail;
    SplitCons(sep, tail, sep);
    assert parts == [[]] + parts[1..];
  }

  /** Splitting step for a first piece that starts with a character c other
      than the separator: c goes back in front of the first piece. */
  lemma {:induction false} SplitJoinHead(parts: seq<string>, sep: char)
    requires |parts| >= 1 && parts[0] != [] && parts[0][0] != sep
    requires SplitAll(Join([parts[0][1..]] + parts[1..], sep), sep) == [parts[0][1..]] + parts[1..]
    ensures SplitAll(Join(parts, sep), sep) == parts
  {
    var c := parts[0][0];
    var q := [parts[0][1..]] + parts[1..];
    JoinPrepend(c, q, sep);
    HeadRebuilt(parts, c, q);
    SplitCons(c, Join(q, sep), sep);
  }

  /** Putting c back in front of the first of the shortened pieces rebuilds them. */
  lemma {:induction false} HeadRebuilt(parts: seq<string>, c: char, q: seq<string>)
    requires |parts| >= 1 && parts[0] != [] && c == parts[0][0]
    requires q == [parts[0][1..]] + parts[1..]
    ensures [[c] + q[0]] + q[1..] == parts
  {
    assert q[1..] == parts[1..];
    assert [c] + q[0] == parts[0];
  }

  /** How one more leading character changes the pieces. */
  lemma {:induction false} SplitCons(c: char, s: string, sep: char)
    ensures SplitAll([c] + s, sep) ==
            if c == sep then [[]] + SplitAll(s, sep)
            else [[c] + SplitAll(s, sep)[0]] + SplitAll(s, sep)[1..]
  {
    assert ([c] + s)[1..] == s;
  }

  lemma {:induction false} SplitNoSep(s: string, sep: char)
    requires sep !in s
    ensures SplitAll(s, sep) == [s]
    decreases |s|
  {
    if s != [] {
      assert sep !in s[1..];
      SplitNoSep(s[1..], sep);
    }
  }

  /** The pieces without the empty ones at the end. */
  function DropTrailingEmpty(parts: seq<string>): (r: seq<string>)
    ensures |r| <= |parts| && r == parts[..|r|]
    ensures forall k :: |r| <= k < |parts| ==> parts[k] == []
    ensures r == [] || r[|r| - 1] != []
  {
    if parts == [] then []
    else if parts[|parts| - 1] == [] then DropTrailingEmpty(parts[..|parts| - 1])
    else parts
  }

  /** String.split with a one-character pattern that is not a regular
      expression metacharacter, and limit 0: when the separator does not occur
      the result is the string itself, otherwise the pieces are kept up to the
      last non-empty one. */
  function Split(s: string, sep: char): (r: seq<string>)
    ensures sep !in s ==> r == [s]
    ensures sep in s ==>
              var all := SplitAll(s, sep);
              && |r| <= |all| && r == all[..|r|]
              && (forall k :: |r| <= k < |all| ==> all[k] == [])
              && (r == [] || r[|r| - 1] != [])
    ensures forall i :: 0 <= i < |r| ==> sep !in r[i]
  {
    if sep !in s then [s] else DropTrailingEmpty(SplitAll(s, sep))
  }

  /** String.split undoes joining with the separator when no piece holds the
      separator and the last piece is not empty. */
  lemma {:induction false} SplitOfJoin(parts: seq<string>, sep: char)
    requires |parts| >= 2 && parts[|parts| - 1] != []
    requires forall i :: 0 <= i < |parts| ==> sep !in parts[i]
    ensures Split(Join(parts, sep), sep) == parts
  {
    SplitJoin(parts, sep);
    var s := Join(parts, sep);
    assert s == parts[0] + [sep] + Join(parts[1..], sep);
    assert s[|parts[0]|] == sep;
    var r := Split(s, sep);
    assert |parts| - 1 < |r|;
  }

  /** Characters String.trim removes: code point at most U+0020. */
  predicate IsTrimmable(c: char) { c <= ' ' }

  ghost predicate TrimmableBetween(s: string, lo: nat, hi: nat)
    requires lo <= hi <= |s|
  {
    forall k :: lo <= k < hi ==> IsTrimmable(s[k])
  }

  /** The first loop of String.trim: advances st past trimmable characters. */
  function TrimStartIndex(s: string, st: nat): (i: nat)
    requires st <= |s| && TrimmableBetween(s, 0, st)
    ensures st <= i <= |s| && TrimmableBetween(s, 0, i)
    ensures i == |s| || !IsTrimmable(s[i])
    decreases |s| - st
  {
    if st < |s| && IsTrimmable(s[st]) then TrimStartIndex(s, st + 1) else st
  }

  /** The second loop of String.trim: moves len back over trimmable
      characters, never below st. */
  function TrimEndIndex(s: string, st: nat, len: nat): (j: nat)
    requires st <= len <= |s| && TrimmableBetween(s, len, |s|)
    ensures st <= j <= len && TrimmableBetween(s, j, |s|)
    ensures j == st || !IsTrimmable(s[j - 1])
    decreases len
  {
    if st < len && IsTrimmable(s[len - 1]) then TrimEndIndex(s, st, len - 1) else len
  }

  /** String.trim: the longest middle part that neither starts nor ends with a
      character at most U+0020; what it cuts off on either side is made only of
      such characters. */
  function Trim(s: string): (r: string)
    ensures r == [] || (!IsTrimmable(r[0]) && !IsTrimmable(r[|r| - 1]))
    ensures exists i :: 0 <= i <= |s| - |r| && r == s[i..i + |r|]
                        && TrimmableBetween(s, 0, i) && TrimmableBetween(s, i + |r|, |s|)
  {
    var st := TrimStartIndex(s, 0);
    var len := TrimEndIndex(s, st, |s|);
    assert st + |s[st..len]| == len;
    s[st..len]
  }

  /** Trimming twice is trimming once. */
  lemma {:induction false} TrimIdempotent(s: string)
    ensures Trim(Trim(s)) == Trim(s)
  {
    var r := Trim(s);
    if r != [] {
      assert TrimStartIndex(r, 0) == 0;
      assert TrimEndIndex(r, 0, |r|) == |r|;
      assert r[0..|r|] == r;
    }
  }

  /** String.compareTo: the difference of the first differing characters, or
      else the difference of the lengths. */
  function CompareTo(s: string, t: string): (r: int)
    ensures r == 0 <==> s == t
    ensures r < 0 <==> LexLess(s, t)
  {
    if s == [] || t == [] then
      LexLessEmpty(s, t);
      |s| - |t|
    else if s[0] != t[0] then
      LexLessHeads(s, t);
      (s[0] as int) - (t[0] as int)
    else
      LexLessTails(s, t);
      CompareTo(s[1..], t[1..])
  }

  /** Against an empty string only the length decides. */
  lemma {:induction false} LexLessEmpty(s: string, t: string)
    requires s == [] || t == []
    ensures LexLess(s, t) <==> |s| < |t|
  {
    if |s| < |t| {
      assert IsProperPrefix(s, t);
    }
  }

  /** Different first characters decide the order. */
  lemma {:induction false} LexLessHeads(s: string, t: string)
    requires s != [] && t != [] && s[0] != t[0]
    ensures LexLess(s, t) <==> s[0] < t[0]
  {
    CompareToHeads(s, t);
    if s[0] < t[0] {
      assert DiffersFirstAt(s, t, 0);
    }
    if LexLess(s, t) && !IsProperPrefix(s, t) {
      var k: nat :| DiffersFirstAt(s, t, k);
    }
  }

  /** Equal first characters leave the order to the rest. */
  lemma {:induction false} LexLessTails(s: string, t: string)
    requires s != [] && t != [] && s[0] == t[0]
    ensures s == t <==> s[1..] == t[1..]
    ensures LexLess(s, t) <==> LexLess(s[1..], t[1..])
  {
    assert s == [s[0]] + s[1..] && t == [t[0]] + t[1..];
    if IsProperPrefix(s[1..], t[1..]) {
      assert s == [t[0]] + t[1..][..|s| - 1] == t[..|s|];
    } else if LexLess(s[1..], t[1..]) {
      var k: nat :| DiffersFirstAt(s[1..], t[1..], k);
      assert s[1..][..k] == s[1..k + 1] && t[1..][..k] == t[1..k + 1];
      assert s[..k + 1] == [s[0]] + s[1..k + 1] && t[..k + 1] == [t[0]] + t[1..k + 1];
      assert DiffersFirstAt(s, t, k + 1);
    }
    if IsProperPrefix(s, t) {
      assert s[1..] == t[1..][..|s| - 1];
    } else if LexLess(s, t) {
      var k: nat :| DiffersFirstAt(s, t, k);
      CompareToHeads(s, t);
      assert k > 0;
      assert s[1..][..k - 1] == s[1..k] && t[1..][..k - 1] == t[1..k];
      assert s[..k] == [s[0]] + s[1..k] && t[..k] == [t[0]] + t[1..k];
      assert DiffersFirstAt(s[1..], t[1..], k - 1);
    }
  }

  /** A proper prefix, or a difference past the first position, means the
      strings start with the same character. */
  lemma {:induction false} CompareToHeads(s: string, t: string)
    ensures s != [] && IsProperPrefix(s, t) ==> s[0] == t[0]
    ensures forall k: nat :: 0 < k && DiffersFirstAt(s, t, k) ==> s[0] == t[0]
  {
    if s != [] && IsProperPrefix(s, t) {
      assert t[..|s|][0] == t[0];
    }
    forall k: nat | 0 < k && DiffersFirstAt(s, t, k) ensures s[0] == t[0] {
      assert s[..k][0] == s[0] && t[..k][0] == t[0];
    }
  }

  predicate IsProperPrefix(s: string, t: string) {
    |s| < |t| && s == t[..|s|]
  }

  /** s and t agree before position k and s has the smaller character there. */
  predicate DiffersFirstAt(s: string, t: string, k: nat) {
    k < |s| && k < |t| && s[..k] == t[..k] && s[k] < t[k]
  }

  /** Lexicographic order on character codes. */
  ghost predicate LexLess(s: string, t: string) {
    IsProperPrefix(s, t) || exists k: nat :: DiffersFirstAt(s, t, k)
  }

  /** Swapping the arguments negates the result. */
  lemma {:induction false} CompareToAntisymmetric(s: string, t: string)
    ensures CompareTo(t, s) == -CompareTo(s, t)
  {
    if s != [] && t != [] && s[0] == t[0] {
      CompareToAntisymmetric(s[1..], t[1..]);
    }
  }

  /** "At most" in the order compareTo defines is transitive. */
  lemma {:induction false} CompareToTransitive(a: string, b: string, c: string)
    requires CompareTo(a, b) <= 0 && CompareTo(b, c) <= 0
    ensures CompareTo(a, c) <= 0
  {
    if a != [] && b != [] && c != [] && a[0] == b[0] && b[0] == c[0] {
      CompareToTransitive(a[1..], b[1..], c[1..]);
    }
  }
}
