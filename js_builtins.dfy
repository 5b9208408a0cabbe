/**
 * The JavaScript string built-ins the core relies on, over `seq<char>`.
 * Case mapping covers the ASCII letters only (see README, "Left out").
 */
module JsString {

  /** `toLowerCase` of one character: ASCII upper-case letters map to lower case. */
  function LowerChar(c: char): (d: char)
    ensures 'A' <= c <= 'Z' ==> d as int == c as int + 32
    ensures !('A' <= c <= 'Z') ==> d == c
  {
    if 'A' <= c <= 'Z' then (c as int + 32) as char else c
  }

  /** `String.prototype.toLowerCase`, character by character. */
  function ToLowerCase(s: string): (r: string)
    ensures |r| == |s|
    ensures forall i :: 0 <= i < |s| ==> r[i] == LowerChar(s[i])
  {
    seq(|s|, i requires 0 <= i < |s| => LowerChar(s[i]))
  }

  /** Lower-casing commutes with taking a suffix. */
  lemma LowerCaseOfSuffix(s: string, i: nat)
    requires i <= |s|
    ensures ToLowerCase(s)[i..] == ToLowerCase(s[i..])
  {
    assert forall k :: 0 <= k < |s| - i ==> ToLowerCase(s)[i..][k] == ToLowerCase(s[i..])[k];
  }

  /** `String.prototype.endsWith`. */
  predicate EndsWith(s: string, suffix: string)
  {
    |suffix| <= |s| && s[|s| - |suffix|..] == suffix
  }

  /** Anything followed by `suffix` ends with it. */
  lemma EndsWithAppend(prefix: string, suffix: string)
    ensures EndsWith(prefix + suffix, suffix)
  {
    assert (prefix + suffix)[|prefix|..] == suffix;
  }

  /** `sub` occurs in `s` starting at index `i`. */
  predicate OccursAt(s: string, sub: string, i: int)
  {
    0 <= i <= |s| - |sub| && s[i..i + |sub|] == sub
  }

  /** `String.prototype.includes`: `sub` occurs somewhere in `s`. */
  function Includes(s: string, sub: string): (b: bool)
    ensures b <==> exists i :: OccursAt(s, sub, i)
    decreases |s|
  {
    if |s| < |sub| then false
    else if s[..|sub|] == sub then assert OccursAt(s, sub, 0); true
    else
      var rest := Includes(s[1..], sub);
      OccursInTail(s, sub);
      rest
  }

  /** An occurrence past the first index is an occurrence in the tail. */
  lemma OccursInTail(s: string, sub: string)
    requires |sub| <= |s| && |s| > 0 && s[..|sub|] != sub
    ensures (exists i :: OccursAt(s, sub, i)) <==> (exists i :: OccursAt(s[1..], sub, i))
  {
    forall i | OccursAt(s, sub, i) ensures OccursAt(s[1..], sub, i - 1) {
      assert i != 0;
      assert s[1..][i - 1..i - 1 + |sub|] == s[i..i + |sub|];
    }
    forall i | OccursAt(s[1..], sub, i) ensures OccursAt(s, sub, i + 1) {
      assert s[1..][i..i + |sub|] == s[i + 1..i + 1 + |sub|];
    }
  }

  /** `String.prototype.lastIndexOf` for one character: -1 when absent. */
  function LastIndexOf(s: string, c: char): (r: int)
    ensures -1 <= r < |s|
    ensures r == -1 <==> c !in s
    ensures 0 <= r ==> s[r] == c && c !in s[r + 1..]
  {
    if s == [] then -1
    else if s[|s| - 1] == c then |s| - 1
    else
      var r := LastIndexOf(s[..|s| - 1], c);
      assert s == s[..|s| - 1] + [s[|s| - 1]];
      r
  }

  /** The last occurrence of `c` is the only one with no `c` after it. */
  lemma LastIndexOfUnique(s: string, c: char, d: nat)
    requires d < |s| && s[d] == c && c !in s[d + 1..]
    ensures LastIndexOf(s, c) == d
  {
  }

  /** `String.prototype.split` with a one-character separator. */
  function Split(s: string, sep: char): (parts: seq<string>)
    ensures |parts| >= 1
    ensures forall k :: 0 <= k < |parts| ==> sep !in parts[k]
  {
    if s == [] then [""]
    else
      var init := Split(s[..|s| - 1], sep);
      if s[|s| - 1] == sep then init + [""]
      else init[..|init| - 1] + [init[|init| - 1] + [s[|s| - 1]]]
  }

  /** `Array.prototype.join` with a one-character separator. */
  function Join(parts: seq<string>, sep: char): string
  {
    if parts == [] then ""
    else if |parts| == 1 then parts[0]
    else Join(parts[..|parts| - 1], sep) + [sep] + parts[|parts| - 1]
  }

  /** Splitting and joining on the same separator gives back the string. */
  lemma {:induction false} JoinSplit(s: string, sep: char)
    ensures Join(Split(s, sep), sep) == s
  {
    if s != [] {
      var init := Split(s[..|s| - 1], sep);
      JoinSplit(s[..|s| - 1], sep);
      if s[|s| - 1] != sep && |init| > 1 {
        var front := init[..|init| - 1];
        var parts := front + [init[|init| - 1] + [s[|s| - 1]]];
        assert parts[..|parts| - 1] == front;
        assert init[..|init| - 1] == front;
      }
    }
  }

  /** The last piece of a split is what follows the last separator. */
  lemma {:induction false} LastSplitPiece(s: string, sep: char)
    ensures var parts := Split(s, sep);
      parts[|parts| - 1] == s[LastIndexOf(s, sep) + 1..]
  {
    if s != [] {
      var front := s[..|s| - 1];
      var init := Split(front, sep);
      LastSplitPiece(front, sep);
      if s[|s| - 1] == sep {
        assert Split(s, sep) == init + [""];
      } else {
        var d := LastIndexOf(front, sep);
        assert LastIndexOf(s, sep) == d;
        assert Split(s, sep)[|Split(s, sep)| - 1] == init[|init| - 1] + [s[|s| - 1]];
        assert s[d + 1..] == front[d + 1..] + [s[|s| - 1]];
      }
    }
  }
}

/** The JavaScript array built-ins the core relies on. */
module JsArray {

  /** `Array.prototype.filter`: the elements that pass `keep`, in their original order. */
  function Filter<T(!new)>(s: seq<T>, keep: T -> bool): (r: seq<T>)
    ensures |r| <= |s|
    ensures forall k :: 0 <= k < |r| ==> keep(r[k])
    ensures forall x :: x in r <==> x in s && keep(x)
  {
    if s == [] then []
    else
      assert s == [s[0]] + s[1..];
      (if keep(s[0]) then [s[0]] else []) + Filter(s[1..], keep)
  }

  /** Filtering a list with a first element looks at that element, then filters the rest. */
  lemma FilterCons<T(!new)>(x: T, rest: seq<T>, keep: T -> bool)
    ensures Filter([x] + rest, keep) == (if keep(x) then [x] else []) + Filter(rest, keep)
  {
    var s := [x] + rest;
    assert s[0] == x && s[1..] == rest;
  }

  /** Filtering a concatenation filters each part, keeping the parts in order. */
  lemma {:induction false} FilterAppend<T(!new)>(a: seq<T>, b: seq<T>, keep: T -> bool)
    ensures Filter(a + b, keep) == Filter(a, keep) + Filter(b, keep)
  {
    if a == [] {
      assert a + b == b;
    } else {
      FilterAppend(a[1..], b, keep);
      assert a == [a[0]] + a[1..];
      FilterAppendStep(a[0], a[1..], b, keep);
    }
  }

  /** The inductive step of `FilterAppend`: from `rest` to `[x] + rest`. */
  lemma FilterAppendStep<T(!new)>(x: T, rest: seq<T>, b: seq<T>, keep: T -> bool)
    requires Filter(rest + b, keep) == Filter(rest, keep) + Filter(b, keep)
    ensures Filter([x] + rest + b, keep) == Filter([x] + rest, keep) + Filter(b, keep)
  {
    assert [x] + rest + b == [x] + (rest + b);
    FilterCons(x, rest + b, keep);
    FilterCons(x, rest, keep);
    Regroup(if keep(x) then [x] else [], Filter(rest, keep), Filter(b, keep),
            Filter([x] + rest + b, keep), Filter([x] + rest, keep));
  }

  /** `h` in front of `r + t` is `h + r` in front of `t`. */
  lemma Regroup<T>(h: seq<T>, r: seq<T>, t: seq<T>, whole: seq<T>, front: seq<T>)
    requires whole == h + (r + t) && front == h + r
    ensures whole == front + t
  {
  }

  /** Filtering one element keeps it exactly when it passes. */
  lemma FilterSingleton<T(!new)>(x: T, keep: T -> bool)
    ensures Filter([x], keep) == if keep(x) then [x] else []
  {
    assert [x][1..] == [];
  }

  /** No element occurs twice. */
  predicate Distinct<T(==)>(s: seq<T>)
  {
    forall i, j :: 0 <= i < j < |s| ==> s[i] != s[j]
  }

  /** The elements of `r` come in the order they have in `s`. */
  predicate SameOrder<T(==)>(r: seq<T>, s: seq<T>)
  {
    forall i, j, a, b ::
      0 <= i < |r| && 0 <= j < |r| && 0 <= a < |s| && 0 <= b < |s| && r[i] == s[a] && r[j] == s[b]
      ==> (i < j <==> a < b)
  }

  /** A list in the order of a list without repetitions, and drawn from it, has no repetitions. */
  lemma SameOrderDistinct<T>(r: seq<T>, s: seq<T>)
    requires SameOrder(r, s) && forall x :: x in r ==> x in s
    ensures Distinct(r)
  {
    forall i, j | 0 <= i < j < |r| ensures r[i] != r[j] {
      assert r[i] in s;
      var a :| 0 <= a < |s| && s[a] == r[i];
      assert r[j] != s[a];
    }
  }

  /** Putting a new first element in front of a list in the order of `t`. */
  lemma {:induction false} ConsSameOrder<T>(x: T, t: seq<T>, r: seq<T>, keep: bool)
    requires x !in t && SameOrder(r, t) && forall y :: y in r ==> y in t
    ensures SameOrder((if keep then [x] else []) + r, [x] + t)
  {
    var h := if keep then [x] else [];
    var r2 := h + r;
    var s := [x] + t;
    forall i, a | 0 <= i < |r2| && 0 <= a < |s| && r2[i] == s[a]
      ensures a == 0 <==> (h != [] && i == 0)
      ensures a > 0 ==> i >= |h| && r[i - |h|] == t[a - 1]
    {
      if i >= |h| {
        assert r2[i] == r[i - |h|] && r2[i] in t;
      }
      if a > 0 {
        assert s[a] == t[a - 1];
      }
    }
  }

  /** Filtering a list without repetitions keeps each passing element once, in its original order. */
  lemma {:induction false} FilterInOrder<T(!new)>(s: seq<T>, keep: T -> bool)
    requires Distinct(s)
    ensures Distinct(Filter(s, keep)) && SameOrder(Filter(s, keep), s)
  {
    if s != [] {
      var t := s[1..];
      assert Distinct(t) by {
        forall i, j | 0 <= i < j < |t| ensures t[i] != t[j] {
          assert t[i] == s[i + 1] && t[j] == s[j + 1];
        }
      }
      assert s[0] !in t by {
        forall k | 0 <= k < |t| ensures t[k] != s[0] {
          assert t[k] == s[k + 1];
        }
      }
      FilterInOrder(t, keep);
      assert s == [s[0]] + t;
      ConsSameOrder(s[0], t, Filter(t, keep), keep(s[0]));
    }
    SameOrderDistinct(Filter(s, keep), s);
  }

  /** Keeping part of a list that has the order of `s` keeps that order. */
  lemma SameOrderOfPart<T>(r: seq<T>, g: seq<T>, s: seq<T>)
    requires SameOrder(g, s) && SameOrder(r, g)
    requires forall x :: x in r ==> x in g
    ensures SameOrder(r, s)
  {
    forall i, j, a, b |
      0 <= i < |r| && 0 <= j < |r| && 0 <= a < |s| && 0 <= b < |s| && r[i] == s[a] && r[j] == s[b]
      ensures i < j <==> a < b
    {
      assert r[i] in g && r[j] in g;
      var c :| 0 <= c < |g| && g[c] == r[i];
      var d :| 0 <= d < |g| && g[d] == r[j];
      assert r[i] == g[c] && r[j] == g[d];
    }
  }

  /** A filter that keeps nothing is empty exactly when no element passes. */
  lemma FilterEmpty<T(!new)>(s: seq<T>, keep: T -> bool)
    ensures Filter(s, keep) == [] <==> forall k :: 0 <= k < |s| ==> !keep(s[k])
  {
    if Filter(s, keep) == [] {
    } else {
      var x := Filter(s, keep)[0];
      var k :| 0 <= k < |s| && s[k] == x;
    }
  }
}
