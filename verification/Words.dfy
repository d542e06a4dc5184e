// Byte strings, their order, and dictionaries read from parallel key and value lists.

module Words {

  type Byte = x: int | 0 <= x < 256

  type Word = seq<Byte>

  /** The code of a child in the trie: 0 for the end of a word, a byte plus one for a longer path. */
  type Code = x: int | 0 <= x <= 256

  /** A trie without its values: each node with the codes of its children. */
  type Shape = map<Word, set<Code>>

  datatype Option<+T> = None | Some(value: T)

  /** The bytes of a text of single-byte characters. */
  function Ascii(text: string): (b: seq<Byte>)
    requires forall i :: 0 <= i < |text| ==> text[i] as int < 256
    ensures |b| == |text| && forall i :: 0 <= i < |text| ==> b[i] as int == text[i] as int
  {
    seq(|text|, i requires 0 <= i < |text| => text[i] as int as Byte)
  }

  function Pow2(n: nat): (p: nat)
    ensures p > 0
  {
    if n == 0 then 1 else 2 * Pow2(n - 1)
  }

  /** The sibling code of a key at a depth: 0 where the key ends, its byte plus one elsewhere. */
  function CodeAt(key: Word, depth: nat): (c: Code)
    requires depth <= |key|
  {
    if depth == |key| then 0 else key[depth] as int + 1
  }

  /** Unsigned byte order of two keys, comparing from position `depth` on. */
  predicate LessEqFrom(a: Word, b: Word, depth: nat)
    requires depth <= |a| && depth <= |b|
    decreases |a| - depth
  {
    if depth == |a| then true
    else if depth == |b| then false
    else a[depth] < b[depth] || (a[depth] == b[depth] && LessEqFrom(a, b, depth + 1))
  }

  predicate LessEq(a: Word, b: Word) {
    LessEqFrom(a, b, 0)
  }

  /** A shared prefix does not decide the order: comparing after it gives the same answer. */
  lemma {:induction false} SharedPrefixIsNeutral(a: Word, b: Word, depth: nat)
    requires depth <= |a| && depth <= |b| && a[..depth] == b[..depth]
    ensures LessEq(a, b) <==> LessEqFrom(a, b, depth)
  {
    if depth > 0 {
      var d := depth - 1;
      assert a[d] == a[..depth][d] == b[..depth][d] == b[d];
      assert a[..d] == a[..depth][..d] == b[..depth][..d] == b[..d];
      SharedPrefixIsNeutral(a, b, d);
    }
  }

  /** Two keys with a common prefix `q` are ordered by their codes after it. */
  lemma OrderByCode(q: Word, a: Word, b: Word)
    requires q <= a && q <= b
    ensures CodeAt(a, |q|) < CodeAt(b, |q|) ==> LessEq(a, b)
    ensures CodeAt(a, |q|) > CodeAt(b, |q|) ==> !LessEq(a, b)
  {
    SharedPrefixIsNeutral(a, b, |q|);
  }

  lemma EqualKeysAreOrdered(a: Word)
    ensures LessEq(a, a)
  {
    SharedPrefixIsNeutral(a, a, |a|);
  }

  /** Neighbouring keys of `keys[lo..hi]` are in unsigned byte order. */
  predicate SortedRange(keys: seq<Word>, lo: nat, hi: nat)
    requires hi <= |keys|
  {
    forall i :: lo <= i && i + 1 < hi ==> LessEq(keys[i], keys[i+1])
  }

  /** The value the list gives to its i-th key: the i-th value, or the position itself when there are no values. */
  function ValueAt(values: Option<seq<int>>, i: nat): int
    requires values.Some? ==> i < |values.value|
  {
    if values.Some? then values.value[i] else i
  }

  predicate ValuesFit(keys: seq<Word>, values: Option<seq<int>>) {
    values.Some? ==> |values.value| == |keys|
  }

  /** If the i-th key differs from the one before it in a range starting at `lo`, its value is non-negative. */
  predicate FirstNonNegative(keys: seq<Word>, values: Option<seq<int>>, lo: nat, i: nat)
    requires lo <= i < |keys| && ValuesFit(keys, values)
  {
    (i == lo || keys[i-1] != keys[i]) ==> ValueAt(values, i) >= 0
  }

  predicate FirstsNonNegative(keys: seq<Word>, values: Option<seq<int>>, lo: nat, hi: nat)
    requires hi <= |keys| && ValuesFit(keys, values)
  {
    forall i :: lo <= i < hi ==> FirstNonNegative(keys, values, lo, i)
  }

  /** What an error-free build of `keys[lo..hi]` requires. */
  predicate Buildable(keys: seq<Word>, values: Option<seq<int>>, lo: nat, hi: nat)
    requires hi <= |keys| && ValuesFit(keys, values)
  {
    SortedRange(keys, lo, hi) && FirstsNonNegative(keys, values, lo, hi)
  }

  function FirstIndex(keys: seq<Word>, w: Word): (r: nat)
    requires w in keys
    ensures r < |keys| && keys[r] == w && forall j :: 0 <= j < r ==> keys[j] != w
  {
    if keys[0] == w then 0
    else
      assert w in keys[1..];
      FirstIndex(keys[1..], w) + 1
  }

  /** The plain map that the trie indexes: each key with the value of its first occurrence. */
  function DictOf(keys: seq<Word>, values: Option<seq<int>>): (d: map<Word, int>)
    requires ValuesFit(keys, values)
  {
    map w | w in keys :: ValueAt(values, FirstIndex(keys, w))
  }

  /** `d` knows the listed keys only, and gives each what its first position in the list was given. */
  ghost predicate HoldsFirstValues(keys: seq<Word>, values: Option<seq<int>>, d: map<Word, int>)
    requires ValuesFit(keys, values)
  {
    && d.Keys == (set k | k in keys)
    && forall i :: 0 <= i < |keys| && keys[i] !in keys[..i] ==>
         d[keys[i]] == match values { case Some(vs) => vs[i] case None => i }
  }

  lemma DictHoldsFirstValues(keys: seq<Word>, values: Option<seq<int>>)
    requires ValuesFit(keys, values)
    ensures HoldsFirstValues(keys, values, DictOf(keys, values))
  {
    forall i | 0 <= i < |keys| && keys[i] !in keys[..i] ensures FirstIndex(keys, keys[i]) == i {
      assert forall j :: 0 <= j < i ==> keys[..i][j] == keys[j];
    }
  }

  lemma SharedAt(a: Word, b: Word, n: nat, i: nat)
    requires i < n <= |a| && n <= |b| && a[..n] == b[..n]
    ensures a[i] == b[i]
  {
    assert a[..n][i] == b[..n][i];
  }

  /** The first difference of two words is at `k`, and it makes `a` the smaller one. */
  predicate SmallerAt(a: Word, b: Word, k: nat) {
    k < |a| && k < |b| && a[..k] == b[..k] && (a[k] as int) < b[k] as int
  }

  /** Unsigned byte order: a prefix, or smaller at the first difference. */
  lemma {:induction false} OrderByFirstDifference(a: Word, b: Word, depth: nat)
    requires depth <= |a| && depth <= |b| && a[..depth] == b[..depth]
    ensures LessEqFrom(a, b, depth) <==> a <= b || exists k: nat :: SmallerAt(a, b, k)
    decreases |a| - depth
  {
    if depth < |a| && depth < |b| && a[depth] == b[depth] {
      assert a[..depth+1] == a[..depth] + [a[depth]] && b[..depth+1] == b[..depth] + [b[depth]];
      OrderByFirstDifference(a, b, depth + 1);
    } else {
      forall k: nat | SmallerAt(a, b, k) ensures k == depth {
        if k < depth {
          SharedAt(a, b, depth, k);
        }
        if depth < k {
          SharedAt(a, b, k, depth);
        }
      }
      if depth < |a| && depth < |b| && a[depth] < b[depth] {
        assert SmallerAt(a, b, depth);
      }
      assert depth == |a| ==> a == b[..depth];
    }
  }

  /** What a build asks of its keys and values, in plain terms. */
  lemma BuildableInPlainTerms(keys: seq<Word>, values: Option<seq<int>>)
    requires ValuesFit(keys, values)
    ensures Buildable(keys, values, 0, |keys|) <==>
              && (forall i :: 0 <= i && i + 1 < |keys| ==> LessEq(keys[i], keys[i+1]))
              && (forall i :: 0 <= i < |keys| && (i == 0 || keys[i-1] != keys[i]) && values.Some? ==> values.value[i] >= 0)
  {
    if values.None? {
      assert forall i :: 0 <= i < |keys| ==> FirstNonNegative(keys, values, 0, i);
    } else {
      assert forall i :: 0 <= i < |keys| ==>
        (FirstNonNegative(keys, values, 0, i) <==> (i == 0 || keys[i-1] != keys[i] ==> values.value[i] >= 0));
    }
  }

  /** `q` is a path of the trie: a prefix of some word. */
  ghost predicate IsPath(d: map<Word, int>, q: Word) {
    exists w :: w in d && q <= w
  }

  /** The trie node `q` has a child with this code: code 0 when `q` is a word, else the path that adds one byte. */
  ghost predicate HasCode(d: map<Word, int>, q: Word, code: Code) {
    if code == 0 then q in d else IsPath(d, q + [code - 1])
  }

  /** The trie of `d` without its values: every path with the codes of its children. */
  ghost function ShapeOf(d: map<Word, int>): (s: Shape)
    ensures forall q :: q in s <==> IsPath(d, q)
    ensures forall q, c: Code :: q in s ==> (c in s[q] <==> HasCode(d, q, c))
  {
    var paths := set w, n | w in d && 0 <= n <= |w| :: w[..n];
    assert forall q :: IsPath(d, q) ==> q in paths by {
      forall q | IsPath(d, q) ensures q in paths {
        var w :| w in d && q <= w;
        assert w[..|q|] == q;
      }
    }
    map q | q in paths :: set c: Code | 0 <= c <= 256 && HasCode(d, q, c)
  }

  lemma PrefixOfPathIsPath(d: map<Word, int>, q: Word, n: nat)
    requires n <= |q| && IsPath(d, q)
    ensures IsPath(d, q[..n])
  {
    var w :| w in d && q <= w;
    assert q[..n] <= w;
  }

  function MaxLen(keys: seq<Word>): (m: nat)
    ensures forall i :: 0 <= i < |keys| ==> |keys[i]| <= m
  {
    if keys == [] then 0
    else
      var rest := MaxLen(keys[1..]);
      assert forall i :: 1 <= i < |keys| ==> keys[i] == keys[1..][i-1];
      if |keys[0]| > rest then |keys[0]| else rest
  }

  /** The answer a trie lookup owes: a word's value, -1 for a mere path, -2 for anything else. */
  ghost function Lookup(d: map<Word, int>, w: Word): int {
    if w in d then d[w] else if IsPath(d, w) then -1 else -2
  }

  /** The lengths below `m` at which `q` followed by a prefix of `key` is a word, shortest first. */
  function WordLengths(d: map<Word, int>, q: Word, key: Word, m: nat): (lens: seq<nat>)
    requires m <= |key| + 1
    ensures |lens| <= m && forall j :: 0 <= j < |lens| ==> lens[j] < m
  {
    if m == 0 then []
    else WordLengths(d, q, key, m - 1) + if q + key[..m-1] in d then [m - 1] else []
  }

  /** Each such length occurs exactly once, in increasing order. */
  lemma {:induction false} WordLengthsExact(d: map<Word, int>, q: Word, key: Word, m: nat)
    requires m <= |key| + 1
    ensures forall l: nat :: l in WordLengths(d, q, key, m) <==> l < m && q + key[..l] in d
    ensures forall i, j :: 0 <= i < j < |WordLengths(d, q, key, m)| ==>
              WordLengths(d, q, key, m)[i] < WordLengths(d, q, key, m)[j]
  {
    if m > 0 {
      WordLengthsExact(d, q, key, m - 1);
      var shorter := WordLengths(d, q, key, m - 1);
      assert forall i :: 0 <= i < |shorter| ==> shorter[i] in shorter;
    }
  }

  lemma PrefixIsPath(d: map<Word, int>, q: Word, w: Word)
    requires q <= w && IsPath(d, w)
    ensures IsPath(d, q)
  {
    PrefixOfPathIsPath(d, w, |q|);
    assert w[..|q|] == q;
  }

  lemma SliceIsPrefix(q: Word, key: Word, a: nat, b: nat, c: nat)
    requires a <= b <= c <= |key|
    ensures q + key[a..b] <= q + key[a..c]
  {
    assert key[a..c] == key[a..b] + key[b..c];
    assert q + key[a..c] == (q + key[a..b]) + key[b..c];
  }

  /** No word lies past a missing path. */
  lemma NotAPath(d: map<Word, int>, q: Word, w: Word)
    requires !IsPath(d, q) && q <= w
    ensures !IsPath(d, w) && w !in d
  {
    if IsPath(d, w) {
      PrefixIsPath(d, q, w);
    }
  }

  lemma {:induction false} WordLengthsStop(d: map<Word, int>, q: Word, key: Word, i: nat, m: nat)
    requires i <= m <= |key| + 1 && i <= |key| && !IsPath(d, q + key[..i])
    ensures WordLengths(d, q, key, m) == WordLengths(d, q, key, i)
    decreases m
  {
    if i < m {
      WordLengthsStop(d, q, key, i, m - 1);
      assert key[..i] <= key[..m-1];
      assert q + key[..i] <= q + key[..m-1];
      NotAPath(d, q + key[..i], q + key[..m-1]);
    }
  }

  /** The answer a list of keys and values owes: the value a listed key was first given, -1 or -2 for other texts. */
  ghost predicate IsAnswer(keys: seq<Word>, values: Option<seq<int>>, w: Word, r: int)
    requires ValuesFit(keys, values)
  {
    && (forall i :: 0 <= i < |keys| && keys[i] == w && w !in keys[..i] ==>
         r == match values { case Some(vs) => vs[i] case None => i })
    && (w !in keys ==> r == if exists k :: k in keys && w <= k then -1 else -2)
  }

  lemma LookupAnswers(keys: seq<Word>, values: Option<seq<int>>, d: map<Word, int>, w: Word)
    requires ValuesFit(keys, values) && HoldsFirstValues(keys, values, d)
    ensures IsAnswer(keys, values, w, Lookup(d, w))
  {
    assert IsPath(d, w) <==> exists k :: k in keys && w <= k;
  }
}
