/**
 * Generic sequence facts shared by the byte-level and the text-level code:
 * substring search (Python's `in`, `find` and `index`), strip, split and join.
 */
module Seqs {
  import opened Wrappers

  /** `pat` occurs in `s` starting at index `i`. */
  ghost predicate OccursAt<T>(s: seq<T>, pat: seq<T>, i: nat)
  {
    i + |pat| <= |s| && s[i..i + |pat|] == pat
  }

  /** The first index at or after `from` where `pat` occurs in `s`. */
  function IndexFrom<T(==)>(s: seq<T>, pat: seq<T>, from: nat): (r: Option<nat>)
    requires from <= |s|
    ensures r.Some? ==> from <= r.value && OccursAt(s, pat, r.value)
    ensures r.Some? ==> forall j :: from <= j < r.value ==> !OccursAt(s, pat, j)
    ensures r.None? ==> forall j :: from <= j ==> !OccursAt(s, pat, j)
    decreases |s| - from
  {
    if from + |pat| > |s| then None
    else if s[from..from + |pat|] == pat then Some(from)
    else IndexFrom(s, pat, from + 1)
  }

  /** Python's `s.find(pat)` / `s.index(pat)`: the first occurrence, if any. */
  function IndexOf<T(==)>(s: seq<T>, pat: seq<T>): (r: Option<nat>)
    ensures r.Some? ==> OccursAt(s, pat, r.value)
    ensures r.Some? ==> forall j :: 0 <= j < r.value ==> !OccursAt(s, pat, j)
    ensures r.None? ==> forall j :: 0 <= j ==> !OccursAt(s, pat, j)
  {
    IndexFrom(s, pat, 0)
  }

  /** Python's `pat in s`. */
  predicate Contains<T(==)>(s: seq<T>, pat: seq<T>)
  {
    IndexOf(s, pat).Some?
  }

  lemma OccursInPrefix<T>(a: seq<T>, b: seq<T>, pat: seq<T>, i: nat)
    requires OccursAt(a, pat, i)
    ensures OccursAt(a + b, pat, i)
  {
    assert (a + b)[i..i + |pat|] == a[i..i + |pat|];
  }

  /** Appending never hides an occurrence: once found in a buffer, always found. */
  lemma ContainsGrows<T>(a: seq<T>, b: seq<T>, pat: seq<T>)
    requires Contains(a, pat)
    ensures Contains(a + b, pat)
    ensures IndexOf(a + b, pat) == IndexOf(a, pat)
  {
    var i := IndexOf(a, pat).value;
    OccursInPrefix(a, b, pat, i);
    forall j | 0 <= j < i
      ensures !OccursAt(a + b, pat, j)
    {
      assert (a + b)[j..j + |pat|] == a[j..j + |pat|] && !OccursAt(a, pat, j);
    }
  }

  /** The first occurrence cuts `s` into what is before it, the pattern, and what follows. */
  lemma FirstOccurrenceSplit<T>(s: seq<T>, pat: seq<T>, at: nat, after: seq<T>)
    requires IndexOf(s, pat) == Some(at) && after == s[at + |pat|..]
    ensures at == |s| - |after| - |pat|
    ensures s[at..] == pat + after
    ensures forall j :: 0 <= j < at ==> !OccursAt(s, pat, j)
  {
    assert s[at..] == s[at..at + |pat|] + after;
  }

  /** Python's `s[s.index(pat) + len(pat):]`: what follows the first occurrence, if there is one. */
  function AfterFirst<T(==)>(s: seq<T>, pat: seq<T>): (r: Option<seq<T>>)
    ensures r.Some? <==> Contains(s, pat)
  {
    match IndexOf(s, pat)
    case Some(at) => Some(s[at + |pat|..])
    case None => None
  }

  /** What follows the first occurrence: `s` ends with the pattern and it, and no earlier index holds the pattern. */
  lemma AfterFirstSplits<T>(s: seq<T>, pat: seq<T>, after: seq<T>)
    requires AfterFirst(s, pat) == Some(after)
    ensures var i := |s| - |after| - |pat|;
      0 <= i && s[i..] == pat + after && forall j :: 0 <= j < i ==> !OccursAt(s, pat, j)
  {
    FirstOccurrenceSplit(s, pat, IndexOf(s, pat).value, after);
  }

  /** A prefix that ends before the first occurrence is complete does not contain the pattern. */
  lemma NotContainsBefore<T>(p: seq<T>, q: seq<T>, pat: seq<T>, i: nat)
    requires IndexOf(p + q, pat) == Some(i) && |p| < i + |pat|
    ensures !Contains(p, pat)
  {
    if Contains(p, pat) {
      ContainsGrows(p, q, pat);
    }
  }

  /** An element occurs as a one-element pattern exactly where it sits. */
  lemma ContainsSingle<T>(s: seq<T>, x: T)
    ensures Contains(s, [x]) <==> x in s
  {
    if x in s {
      var i :| 0 <= i < |s| && s[i] == x;
      assert s[i..i + 1] == [x];
      assert OccursAt(s, [x], i);
    }
    if Contains(s, [x]) {
      var i := IndexOf(s, [x]).value;
      assert s[i..i + 1] == [x];
      assert s[i] == x;
    }
  }

  /** The first occurrence of a single element: it sits there, and nowhere before. */
  lemma IndexOfSingle<T>(s: seq<T>, x: T)
    ensures IndexOf(s, [x]).None? <==> x !in s
    ensures IndexOf(s, [x]).Some? ==> s[IndexOf(s, [x]).value] == x && x !in s[..IndexOf(s, [x]).value]
  {
    ContainsSingle(s, x);
    if IndexOf(s, [x]).Some? {
      var i := IndexOf(s, [x]).value;
      assert s[i..i + 1] == [x];
      forall j | 0 <= j < i
        ensures s[..i][j] != x
      {
        assert s[j..j + 1] == [s[j]] && !OccursAt(s, [x], j);
      }
    }
  }

  /** An element found at `i` and not before is what `find` returns. */
  lemma IndexOfFirst<T>(s: seq<T>, x: T, i: nat)
    requires i < |s| && s[i] == x && x !in s[..i]
    ensures IndexOf(s, [x]) == Some(i)
  {
    IndexOfSingle(s, x);
  }

  // --- prefixes ----------------------------------------------------------------

  /** The prefix one longer is the prefix and the next element. */
  lemma TakeNext<T>(s: seq<T>, i: nat)
    requires i < |s|
    ensures s[..i + 1] == s[..i] + [s[i]]
  {
  }

  /** Concatenation is associative. */
  lemma AppendAssoc<T>(a: seq<T>, b: seq<T>, c: seq<T>)
    ensures a + (b + c) == (a + b) + c
  {
  }

  /** A sequence is its prefix of length `k` and the rest. */
  lemma SplitAt<T>(s: seq<T>, k: nat)
    requires k <= |s|
    ensures s == s[..k] + s[k..]
  {
  }

  /** A sequence is what comes before position `i`, the element there, and what comes after. */
  lemma SplitAround<T>(s: seq<T>, i: nat)
    requires i < |s|
    ensures s == s[..i] + [s[i]] + s[i + 1..]
  {
  }

  /** The tails of a non-empty prefix and of its sequence are again prefix and sequence. */
  lemma PrefixTail<T>(a: seq<T>, b: seq<T>)
    requires a != [] && a <= b
    ensures a[1..] <= b[1..]
  {
  }

  /** Equal first elements and a prefix of the tails give a prefix. */
  lemma PrefixByHead<T>(a: seq<T>, b: seq<T>)
    requires a != [] && b != [] && a[0] == b[0] && a[1..] <= b[1..]
    ensures a <= b
  {
    assert a == [a[0]] + a[1..] && b == [b[0]] + b[1..];
  }

  /** A non-empty sequence is its front and its last element. */
  lemma SplitLast<T>(s: seq<T>)
    requires s != []
    ensures s == s[..|s| - 1] + [s[|s| - 1]]
  {
  }

  /** Dropping the element just appended gives back the sequence. */
  lemma DropAppended<T>(s: seq<T>, x: T)
    ensures (s + [x])[..|s|] == s
  {
  }

  /** Appending an element leaves every prefix of the old sequence in place. */
  lemma TakeAppended<T>(s: seq<T>, x: T, m: nat)
    requires m <= |s|
    ensures (s + [x])[..m] == s[..m]
  {
  }

  // --- strip -----------------------------------------------------------------

  /** A slice holds nothing its sequence does not. */
  lemma NotInSlice<T>(s: seq<T>, i: nat, j: nat, x: T)
    requires i <= j <= |s| && x !in s
    ensures x !in s[i..j]
  {
    assert forall k :: 0 <= k < j - i ==> s[i..j][k] == s[i + k];
  }

  /** Number of leading elements that satisfy `sp`. */
  function Lead<T>(s: seq<T>, sp: T -> bool): (k: nat)
    ensures k <= |s|
    ensures forall i :: 0 <= i < k ==> sp(s[i])
    ensures k < |s| ==> !sp(s[k])
  {
    if s != [] && sp(s[0]) then 1 + Lead(s[1..], sp) else 0
  }

  /** Number of trailing elements that satisfy `sp`. */
  function Trail<T>(s: seq<T>, sp: T -> bool): (k: nat)
    ensures k <= |s|
    ensures forall i :: |s| - k <= i < |s| ==> sp(s[i])
    ensures k < |s| ==> !sp(s[|s| - 1 - k])
  {
    if s != [] && sp(s[|s| - 1]) then 1 + Trail(s[..|s| - 1], sp) else 0
  }

  /** Python's `lstrip`: drop the leading elements satisfying `sp`. */
  function LStrip<T>(s: seq<T>, sp: T -> bool): (r: seq<T>)
    ensures |r| <= |s| && r == s[|s| - |r|..]
    ensures forall i :: 0 <= i < |s| - |r| ==> sp(s[i])
    ensures r == [] || !sp(r[0])
  {
    s[Lead(s, sp)..]
  }

  /** Python's `rstrip`: drop the trailing elements satisfying `sp`. */
  function RStrip<T>(s: seq<T>, sp: T -> bool): (r: seq<T>)
    ensures |r| <= |s| && r == s[..|r|]
    ensures forall i :: |r| <= i < |s| ==> sp(s[i])
    ensures r == [] || !sp(r[|r| - 1])
  {
    s[..|s| - Trail(s, sp)]
  }

  /** Python's `strip`: drop the elements satisfying `sp` at both ends. */
  function Strip<T>(s: seq<T>, sp: T -> bool): (r: seq<T>)
    ensures Lead(s, sp) + |r| <= |s|
    ensures r == s[Lead(s, sp)..Lead(s, sp) + |r|]
    ensures forall i :: Lead(s, sp) + |r| <= i < |s| ==> sp(s[i])
    ensures r == [] <==> forall i :: 0 <= i < |s| ==> sp(s[i])
    ensures r == [] || (!sp(r[0]) && !sp(r[|r| - 1]))
  {
    var l := LStrip(s, sp);
    var r := RStrip(l, sp);
    assert r == [] ==> l == [];
    r
  }

  /**
   * Strip has one answer: a sequence made of a run of `sp` elements, a middle that
   * neither starts nor ends with one, and another run, strips to that middle.
   */
  lemma StripUnique<T>(pre: seq<T>, mid: seq<T>, post: seq<T>, sp: T -> bool)
    requires forall i :: 0 <= i < |pre| ==> sp(pre[i])
    requires forall i :: 0 <= i < |post| ==> sp(post[i])
    requires mid == [] || (!sp(mid[0]) && !sp(mid[|mid| - 1]))
    ensures Strip(pre + mid + post, sp) == mid
  {
    var s := pre + mid + post;
    assert s == pre + (mid + post);
    if mid == [] {
      assert mid + post == post;
      var all := pre + post;
      assert forall i :: 0 <= i < |all| ==> sp(all[i]) by {
        forall i | 0 <= i < |all| ensures sp(all[i]) {
          if i < |pre| { assert all[i] == pre[i]; } else { assert all[i] == post[i - |pre|]; }
        }
      }
      var none: seq<T> := [];
      assert all + none == all;
      LStripUnique(all, none, sp);
      assert LStrip(s, sp) == none;
    } else {
      assert (mid + post)[0] == mid[0];
      LStripUnique(pre, mid + post, sp);
      RStripUnique(mid, post, sp);
    }
  }

  /** A sequence that neither starts nor ends with an `sp` element strips to itself. */
  lemma StripNoEnds<T>(s: seq<T>, sp: T -> bool)
    requires s == [] || (!sp(s[0]) && !sp(s[|s| - 1]))
    ensures Strip(s, sp) == s
  {
    var none: seq<T> := [];
    assert none + s == s && s + none == s;
    LStripUnique(none, s, sp);
    RStripUnique(s, none, sp);
  }

  /** Lstrip has one answer: a run of `sp` elements followed by a sequence that does not start with one lstrips to that sequence. */
  lemma LStripUnique<T>(pre: seq<T>, rest: seq<T>, sp: T -> bool)
    requires forall i :: 0 <= i < |pre| ==> sp(pre[i])
    requires rest == [] || !sp(rest[0])
    ensures LStrip(pre + rest, sp) == rest
  {
    var s := pre + rest;
    var k := Lead(s, sp);
    assert forall i :: 0 <= i < |pre| ==> sp(s[i]) by {
      forall i | 0 <= i < |pre| ensures sp(s[i]) { assert s[i] == pre[i]; }
    }
    if rest != [] {
      assert s[|pre|] == rest[0];
    }
    assert k == |pre|;
    assert s[|pre|..] == rest;
  }

  /** Rstrip has one answer: a sequence that does not end with an `sp` element, followed by a run of them, rstrips to that sequence. */
  lemma RStripUnique<T>(mid: seq<T>, post: seq<T>, sp: T -> bool)
    requires forall i :: 0 <= i < |post| ==> sp(post[i])
    requires mid == [] || !sp(mid[|mid| - 1])
    ensures RStrip(mid + post, sp) == mid
  {
    var s := mid + post;
    var k := Trail(s, sp);
    assert forall i :: |mid| <= i < |s| ==> sp(s[i]) by {
      forall i | |mid| <= i < |s| ensures sp(s[i]) { assert s[i] == post[i - |mid|]; }
    }
    if mid != [] {
      assert s[|mid| - 1] == mid[|mid| - 1];
    }
    assert k == |post|;
    assert s[..|mid|] == mid;
  }

  // --- split and join ----------------------------------------------------------

  /** Python's `s.split(sep)` for a one-element separator. */
  function Split<T(==)>(s: seq<T>, sep: T): (parts: seq<seq<T>>)
    ensures |parts| >= 1
    ensures forall k :: 0 <= k < |parts| ==> sep !in parts[k]
    decreases |s|
  {
    var at := IndexOf(s, [sep]);
    if at.None? then
      ContainsSingle(s, sep);
      [s]
    else
      var i := at.value;
      assert s[i..i + 1] == [sep];
      assert sep !in s[..i] by {
        forall j | 0 <= j < i ensures s[j] != sep {
          assert s[j..j + 1] == [s[j]] && !OccursAt(s, [sep], j);
        }
      }
      [s[..i]] + Split(s[i + 1..], sep)
  }

  /** Python's `sep.join(parts)`. */
  function Join<T>(parts: seq<seq<T>>, sep: T): seq<T>
  {
    if |parts| == 0 then []
    else if |parts| == 1 then parts[0]
    else parts[0] + [sep] + Join(parts[1..], sep)
  }

  /** Splitting and joining back on the same separator gives the input. */
  lemma {:induction false} JoinSplit<T>(s: seq<T>, sep: T)
    ensures Join(Split(s, sep), sep) == s
    decreases |s|
  {
    var at := IndexOf(s, [sep]);
    if at.Some? {
      var i := at.value;
      assert s[i..i + 1] == [sep];
      JoinSplit(s[i + 1..], sep);
      var rest := Split(s[i + 1..], sep);
      assert Split(s, sep) == [s[..i]] + rest;
      assert ([s[..i]] + rest)[1..] == rest;
      assert s == s[..i] + [sep] + s[i + 1..];
    }
  }

  /** Joining parts that do not contain the separator and splitting again gives the parts back. */
  lemma {:induction false} SplitJoin<T>(parts: seq<seq<T>>, sep: T)
    requires |parts| >= 1
    requires forall k :: 0 <= k < |parts| ==> sep !in parts[k]
    ensures Split(Join(parts, sep), sep) == parts
    decreases |parts|
  {
    var p := parts[0];
    if |parts| == 1 {
      ContainsSingle(p, sep);
    } else {
      var rest := Join(parts[1..], sep);
      var s := p + [sep] + rest;
      assert Join(parts, sep) == s;
      assert s[|p|..|p| + 1] == [sep];
      assert OccursAt(s, [sep], |p|);
      var i := IndexOf(s, [sep]).value;
      assert s[i..i + 1] == [sep];
      assert sep !in parts[0];
      assert s[i] == sep;
      assert forall j :: 0 <= j < |p| ==> s[j] == p[j];
      assert !(i < |p|);
      assert i == |p|;
      assert s[..|p|] == p && s[|p| + 1..] == rest;
      SplitJoin(parts[1..], sep);
      assert [p] + parts[1..] == parts;
    }
  }

  /** Python's `s.replace(x, '')` for a one-element `x`. */
  function Remove<T(==)>(s: seq<T>, x: T): (r: seq<T>)
    ensures x !in r
    ensures forall i :: 0 <= i < |r| ==> r[i] in s
    ensures forall i :: 0 <= i < |s| && s[i] != x ==> s[i] in r
    ensures x !in s ==> r == s
  {
    if s == [] then []
    else if s[0] == x then Remove(s[1..], x)
    else [s[0]] + Remove(s[1..], x)
  }

  /** Concatenation of a list of sequences (Python's `b''.join`). */
  function Flatten<T>(ss: seq<seq<T>>): seq<T>
  {
    if ss == [] then [] else ss[0] + Flatten(ss[1..])
  }

  lemma {:induction false} FlattenAppend<T>(a: seq<seq<T>>, b: seq<seq<T>>)
    ensures Flatten(a + b) == Flatten(a) + Flatten(b)
  {
    if a != [] {
      assert (a + b)[1..] == a[1..] + b;
      FlattenAppend(a[1..], b);
    } else {
      assert a + b == b;
    }
  }

  /** Python's `s.endswith(suffix)`; `s.startswith(prefix)` is Dafny's `prefix <= s`. */
  predicate EndsWith<T(==)>(s: seq<T>, suffix: seq<T>)
  {
    |suffix| <= |s| && s[|s| - |suffix|..] == suffix
  }

  /** `[f(x).value for x in xs if f(x) is not None]`, in the order of `xs`. */
  function FilterMap<A, B>(xs: seq<A>, f: A -> Option<B>): (r: seq<B>)
    ensures |r| <= |xs|
  {
    if xs == [] then []
    else FilterMap(xs[..|xs| - 1], f) + (match f(xs[|xs| - 1]) case Some(y) => [y] case None => [])
  }

  lemma FilterMapSnoc<A, B>(xs: seq<A>, x: A, f: A -> Option<B>)
    ensures FilterMap(xs + [x], f) == FilterMap(xs, f) + (match f(x) case Some(y) => [y] case None => [])
  {
    assert (xs + [x])[..|xs|] == xs;
  }

  /** A filter keeps order: filtering two runs is filtering each, one after the other. */
  lemma {:induction false} FilterMapAppend<A, B>(a: seq<A>, b: seq<A>, f: A -> Option<B>)
    ensures FilterMap(a + b, f) == FilterMap(a, f) + FilterMap(b, f)
    decreases |b|
  {
    if b == [] {
      assert a + b == a;
    } else {
      var init, last := b[..|b| - 1], b[|b| - 1];
      assert b == init + [last];
      assert a + b == (a + init) + [last];
      FilterMapAppend(a, init, f);
      FilterMapSnoc(a + init, last, f);
      FilterMapSnoc(init, last, f);
      var tail := match f(last) case Some(y) => [y] case None => [];
      AppendAssoc(FilterMap(a, f), FilterMap(init, f), tail);
    }
  }

  /** What a filter outputs is exactly what `f` gives for some input. */
  lemma {:induction false} FilterMapMembers<A, B>(xs: seq<A>, f: A -> Option<B>, y: B)
    ensures y in FilterMap(xs, f) <==> exists k :: 0 <= k < |xs| && f(xs[k]) == Some(y)
  {
    if xs != [] {
      var init := xs[..|xs| - 1];
      FilterMapMembers(init, f, y);
      assert forall k :: 0 <= k < |init| ==> init[k] == xs[k];
      if f(xs[|xs| - 1]) != Some(y) {
        assert (exists k :: 0 <= k < |xs| && f(xs[k]) == Some(y)) ==>
          exists k :: 0 <= k < |init| && f(init[k]) == Some(y);
      }
    }
  }
}
