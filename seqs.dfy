/** Generic helpers on sequences: an Option type, order-preserving filtering and
    the "is an order-preserving subsequence of" relation. JavaScript's
    Array.prototype.filter and cheerio's document-order queries are built on
    these. */
module Seqs {

  datatype Option<+T> = None | Some(value: T)

  /** `idx` picks the elements of `a` out of `b`, in order: a[i] == b[idx[i]]
      and the indices strictly increase. */
  ghost predicate Embeds<T>(a: seq<T>, b: seq<T>, idx: seq<nat>)
  {
    && |idx| == |a|
    && (forall i :: 0 <= i < |idx| ==> idx[i] < |b| && a[i] == b[idx[i]])
    && (forall i, j :: 0 <= i < j < |idx| ==> idx[i] < idx[j])
  }

  /** `a` is an order-preserving subsequence of `b`. */
  ghost predicate IsSubsequence<T>(a: seq<T>, b: seq<T>)
  {
    exists idx :: Embeds(a, b, idx)
  }

  /** The elements of `s` that satisfy `p`, in their original order. */
  function Filter<T>(s: seq<T>, p: T -> bool): (r: seq<T>)
    ensures |r| <= |s|
    ensures forall x :: x in r ==> x in s && p(x)
  {
    if |s| == 0 then [] else (if p(s[0]) then [s[0]] else []) + Filter(s[1..], p)
  }

  /** Filtering keeps every element that satisfies `p` as often as it occurs,
      and drops every other one. */
  lemma {:induction false} FilterCount<T>(s: seq<T>, p: T -> bool)
    ensures forall x :: multiset(Filter(s, p))[x] == if p(x) then multiset(s)[x] else 0
  {
    if |s| > 0 {
      FilterCount(s[1..], p);
      assert s == [s[0]] + s[1..];
      assert multiset(s) == multiset([s[0]]) + multiset(s[1..]);
    }
  }

  /** Indices into the tail, moved up by one, index the whole sequence. */
  lemma EmbedsInTail<T>(a: seq<T>, b: seq<T>, idx: seq<nat>) returns (idx': seq<nat>)
    requires |b| > 0 && Embeds(a, b[1..], idx)
    ensures Embeds(a, b, idx') && forall i :: 0 <= i < |idx'| ==> idx'[i] > 0
  {
    idx' := seq(|idx|, i requires 0 <= i < |idx| => idx[i] + 1);
    forall i | 0 <= i < |idx'| ensures idx'[i] < |b| && a[i] == b[idx'[i]] {
      assert a[i] == b[1..][idx[i]];
    }
  }

  /** The head of `b` can be put in front of an embedding that avoids it. */
  lemma EmbedsCons<T>(a: seq<T>, b: seq<T>, idx: seq<nat>)
    requires |b| > 0 && Embeds(a, b, idx) && forall i :: 0 <= i < |idx| ==> idx[i] > 0
    ensures Embeds([b[0]] + a, b, [0] + idx)
  {
    var a', idx' := [b[0]] + a, [0] + idx;
    forall i | 0 < i < |idx'| ensures idx'[i] < |b| && a'[i] == b[idx'[i]] {
      assert idx'[i] == idx[i - 1] && a'[i] == a[i - 1];
    }
  }

  /** Filtering preserves order. */
  lemma {:induction false} FilterIsSubsequence<T>(s: seq<T>, p: T -> bool)
    ensures IsSubsequence(Filter(s, p), s)
  {
    if |s| == 0 {
      assert Embeds<T>([], s, []);
    } else {
      FilterIsSubsequence(s[1..], p);
      var rest := Filter(s[1..], p);
      var idx :| Embeds(rest, s[1..], idx);
      var shifted := EmbedsInTail(rest, s, idx);
      if p(s[0]) {
        EmbedsCons(rest, s, shifted);
        assert Filter(s, p) == [s[0]] + rest;
      } else {
        assert Filter(s, p) == rest;
      }
    }
  }

  /** Filtering a sequence none of whose elements satisfies `p` gives []. */
  lemma FilterNone<T>(s: seq<T>, p: T -> bool)
    requires forall x :: x in s ==> !p(x)
    ensures Filter(s, p) == []
  {
  }

  /** Appending a conditional element to an accumulator that is `before`
      followed by `xs` gives `before` followed by the extended `xs`. */
  lemma AppendStep<T>(before: seq<T>, xs: seq<T>, acc: seq<T>, x: T, keep: bool)
    requires acc == before + xs
    ensures (if keep then acc + [x] else acc) == before + (xs + if keep then [x] else [])
  {
  }

  /** Concatenation of four sequences, regrouped. */
  lemma SeqAssoc<T>(a: seq<T>, b: seq<T>, c: seq<T>, d: seq<T>)
    ensures a + (b + c + d) == a + b + c + d
  {
  }

  /** The parts concatenated in order. */
  function Flatten<T>(parts: seq<seq<T>>): seq<T>
  {
    if |parts| == 0 then [] else Flatten(parts[..|parts| - 1]) + parts[|parts| - 1]
  }

  /** Flattening one more part appends it. */
  lemma FlattenAppend<T>(parts: seq<seq<T>>, p: seq<T>)
    ensures Flatten(parts + [p]) == Flatten(parts) + p
  {
    assert (parts + [p])[..|parts|] == parts;
  }

  /** An element is in the flattening exactly when it is in one of the parts. */
  lemma {:induction false} FlattenMembers<T>(parts: seq<seq<T>>, x: T)
    ensures x in Flatten(parts) <==> exists i :: 0 <= i < |parts| && x in parts[i]
  {
    if |parts| > 0 {
      var n := |parts| - 1;
      var init := parts[..n];
      FlattenMembers(init, x);
      if x in Flatten(parts) && x !in Flatten(init) {
        assert x in parts[n];
      }
      if exists i :: 0 <= i < |parts| && x in parts[i] {
        var i :| 0 <= i < |parts| && x in parts[i];
        if i < n {
          assert x in init[i];
        }
      }
    }
  }

  /** An element in two different parts occurs at least twice in the
      flattening: concatenation merges nothing. */
  lemma {:induction false} FlattenTwice<T>(parts: seq<seq<T>>, x: T, i1: nat, i2: nat)
    requires i1 < i2 < |parts| && x in parts[i1] && x in parts[i2]
    ensures multiset(Flatten(parts))[x] >= 2
  {
    var n := |parts| - 1;
    var init := parts[..n];
    assert multiset(Flatten(parts)) == multiset(Flatten(init)) + multiset(parts[n]);
    if i2 < n {
      FlattenTwice(init, x, i1, i2);
    } else {
      FlattenMembers(init, x);
      assert x in init[i1];
    }
  }
}
