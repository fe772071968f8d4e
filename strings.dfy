/**
 * Strings as Java orders and splits them: the lexicographic order of
 * `String.compareTo` (which `TreeSet<String>` and `ClassName`'s natural order
 * follow), sorted duplicate-free sequences standing for a `TreeSet<String>`,
 * and the split, join and character-replace operations the naming helpers use.
 */
module Strings {

  /** `a.compareTo(b) < 0`: the first differing character decides, else the shorter string is less. */
  predicate Less(a: string, b: string)
    decreases |a|
  {
    if a == [] then b != []
    else if b == [] then false
    else if a[0] != b[0] then a[0] < b[0]
    else Less(a[1..], b[1..])
  }

  lemma {:induction false} LessIrreflexive(a: string)
    ensures !Less(a, a)
  {
    if a != [] {
      LessIrreflexive(a[1..]);
    }
  }

  lemma {:induction false} LessTransitive(a: string, b: string, c: string)
    requires Less(a, b) && Less(b, c)
    ensures Less(a, c)
    decreases |a|
  {
    if a != [] && b != [] && c != [] && a[0] == b[0] && b[0] == c[0] {
      LessTransitive(a[1..], b[1..], c[1..]);
    }
  }

  lemma {:induction false} LessTotal(a: string, b: string)
    ensures a == b || Less(a, b) || Less(b, a)
    decreases |a|
  {
    if a != [] && b != [] && a[0] == b[0] {
      LessTotal(a[1..], b[1..]);
      if a[1..] == b[1..] {
        assert a == [a[0]] + a[1..] && b == [b[0]] + b[1..];
      }
    }
  }

  /** The iteration order of a `TreeSet<String>`: strictly ascending, hence no repeats. */
  predicate StrictlySorted(s: seq<string>)
  {
    forall i, j :: 0 <= i < j < |s| ==> Less(s[i], s[j])
  }

  /** `TreeSet.add`: the sorted sequence holding the old elements and `x`. */
  function Insert(s: seq<string>, x: string): (r: seq<string>)
    requires StrictlySorted(s)
    ensures StrictlySorted(r)
    ensures forall y :: y in r <==> y in s || y == x
  {
    if s == [] then [x]
    else if x == s[0] then s
    else if Less(x, s[0]) then
      assert forall j :: 0 < j < |s| ==> Less(x, s[j]) by {
        forall j | 0 < j < |s| ensures Less(x, s[j]) {
          LessTransitive(x, s[0], s[j]);
        }
      }
      [x] + s
    else
      var rest := Insert(s[1..], x);
      LessTotal(x, s[0]);
      assert forall y :: y in rest ==> Less(s[0], y) by {
        forall y | y in rest ensures Less(s[0], y) {
          if y != x {
            var j :| 0 <= j < |s[1..]| && s[1..][j] == y;
            assert s[j + 1] == y;
          }
        }
      }
      assert s == [s[0]] + s[1..];
      [s[0]] + rest
  }

  /** `s.split(sep)` keeping every component, empty ones included. */
  function Split(s: string, sep: char): (parts: seq<string>)
    ensures |parts| >= 1
    decreases |s|
  {
    if s == [] then [""]
    else
      var rest := Split(s[1..], sep);
      if s[0] == sep then [""] + rest
      else [[s[0]] + rest[0]] + rest[1..]
  }

  /**
   * Splitting a concatenation: the last component of `a` and the first of `b`
   * become one component, and the others are kept.
   */
  lemma {:induction false} SplitConcat(a: string, b: string, sep: char)
    ensures var pa, pb := Split(a, sep), Split(b, sep);
      Split(a + b, sep) == pa[..|pa| - 1] + [pa[|pa| - 1] + pb[0]] + pb[1..]
    decreases |a|
  {
    var pa, pb := Split(a, sep), Split(b, sep);
    if a == [] {
      assert a + b == b;
      assert pa == [""] && pa[0] + pb[0] == pb[0];
      assert pb == [pb[0]] + pb[1..];
    } else {
      var ps, rest := Split(a[1..], sep), Split(a[1..] + b, sep);
      SplitConcat(a[1..], b, sep);
      assert (a + b)[1..] == a[1..] + b && (a + b)[0] == a[0];
      SplitUnfold(a, sep);
      SplitUnfold(a + b, sep);
      if a[0] == sep {
        SplitConsSeparator(ps, pb, rest);
      } else {
        SplitConsJoined(a[0], ps, pb, rest);
      }
    }
  }

  /** The step of `SplitConcat` when the first character is the separator. */
  lemma SplitConsSeparator(ps: seq<string>, pb: seq<string>, rest: seq<string>)
    requires |ps| >= 1 && |pb| >= 1
    requires rest == ps[..|ps| - 1] + [ps[|ps| - 1] + pb[0]] + pb[1..]
    ensures var pa := [""] + ps;
      [""] + rest == pa[..|pa| - 1] + [pa[|pa| - 1] + pb[0]] + pb[1..]
  {
    var pa := [""] + ps;
    assert pa[..|pa| - 1] == [""] + ps[..|ps| - 1];
  }

  /** One step of `Split`. */
  lemma SplitUnfold(s: string, sep: char)
    requires s != []
    ensures var rest := Split(s[1..], sep);
      Split(s, sep) == if s[0] == sep then [""] + rest else [[s[0]] + rest[0]] + rest[1..]
  {
  }

  /** The step of `SplitConcat` when the first character is not the separator. */
  lemma SplitConsJoined(c: char, ps: seq<string>, pb: seq<string>, rest: seq<string>)
    requires |ps| >= 1 && |pb| >= 1
    requires rest == ps[..|ps| - 1] + [ps[|ps| - 1] + pb[0]] + pb[1..]
    ensures var pa := [[c] + ps[0]] + ps[1..];
      [[c] + rest[0]] + rest[1..] == pa[..|pa| - 1] + [pa[|pa| - 1] + pb[0]] + pb[1..]
  {
    var pa := [[c] + ps[0]] + ps[1..];
    if |ps| == 1 {
      assert rest[0] == ps[0] + pb[0] && rest[1..] == pb[1..];
      assert [c] + (ps[0] + pb[0]) == ([c] + ps[0]) + pb[0];
    } else {
      assert rest[0] == ps[0];
      assert pa[..|pa| - 1] == [[c] + ps[0]] + ps[1..|ps| - 1];
      assert rest[1..] == ps[1..|ps| - 1] + [ps[|ps| - 1] + pb[0]] + pb[1..];
    }
  }

  /** A string without the separator is its own single component. */
  lemma {:induction false} SplitWithoutSeparator(s: string, sep: char)
    requires sep !in s
    ensures Split(s, sep) == [s]
    decreases |s|
  {
    if s != [] {
      SplitWithoutSeparator(s[1..], sep);
      assert [s[0]] + s[1..] == s;
    }
  }

  /** `String.join(sep, parts)`. */
  function Join(parts: seq<string>, sep: string): string
  {
    if parts == [] then ""
    else if |parts| == 1 then parts[0]
    else parts[0] + sep + Join(parts[1..], sep)
  }

  /** `s.replace(from, to)`. */
  function Replace(s: string, from: char, to: char): (r: string)
    ensures |r| == |s|
    ensures forall i :: 0 <= i < |s| ==> r[i] == if s[i] == from then to else s[i]
  {
    if s == [] then [] else [if s[0] == from then to else s[0]] + Replace(s[1..], from, to)
  }

  /** Prepending a character to the first component prepends it to the joined string. */
  lemma {:induction false} JoinPrepend(c: char, parts: seq<string>, sep: string)
    requires parts != []
    ensures Join([[c] + parts[0]] + parts[1..], sep) == [c] + Join(parts, sep)
  {
    var q := [[c] + parts[0]] + parts[1..];
    assert q[1..] == parts[1..];
  }

  /** Splitting on `sep` and joining with `to` replaces every `sep` by `to`. */
  lemma {:induction false} JoinSplitIsReplace(s: string, sep: char, to: char)
    ensures Join(Split(s, sep), [to]) == Replace(s, sep, to)
    decreases |s|
  {
    if s != [] {
      var rest := Split(s[1..], sep);
      JoinSplitIsReplace(s[1..], sep, to);
      if s[0] == sep {
        var q := [""] + rest;
        assert q[1..] == rest;
      } else {
        JoinPrepend(s[0], rest, [to]);
      }
    }
  }

  /** Split and join are inverse: joining the components with the separator gives back the string. */
  lemma JoinSplit(s: string, sep: char)
    ensures Join(Split(s, sep), [sep]) == s
  {
    JoinSplitIsReplace(s, sep, sep);
    assert Replace(s, sep, sep) == s;
  }

  lemma {:induction false} JoinAppend(parts: seq<string>, x: string, sep: string)
    requires parts != []
    ensures Join(parts + [x], sep) == Join(parts, sep) + sep + x
    decreases |parts|
  {
    if |parts| > 1 {
      JoinAppend(parts[1..], x, sep);
      assert (parts + [x])[1..] == parts[1..] + [x];
    }
  }

  /** Replacing a character that does not occur changes nothing. */
  lemma ReplaceAbsent(s: string, from: char, to: char)
    requires from !in s
    ensures Replace(s, from, to) == s
  {
    var r := Replace(s, from, to);
    assert forall i :: 0 <= i < |s| ==> r[i] == s[i];
  }

  lemma ReplaceConcat(a: string, b: string, from: char, to: char)
    ensures Replace(a + b, from, to) == Replace(a, from, to) + Replace(b, from, to)
  {
    var l, r := Replace(a + b, from, to), Replace(a, from, to) + Replace(b, from, to);
    assert forall i :: 0 <= i < |l| ==> l[i] == r[i];
  }
}
