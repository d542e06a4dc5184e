// The double-array trie: packing a key list into base/check units, and the searches over them.

module Packing {
  import opened Words

  datatype Unit = Unit(base: int, check: nat)

  datatype Node = Node(code: Code, depth: nat, left: nat, right: nat)

  // ---------------------------------------------------------------- sibling lists

  predicate Increasing(sibs: seq<Node>) {
    forall i, j :: 0 <= i < j < |sibs| ==> sibs[i].code < sibs[j].code
  }

  /** All keys of the range reach the depth. */
  predicate Deep(keys: seq<Word>, lo: nat, hi: nat, depth: nat)
    requires hi <= |keys|
  {
    forall i :: lo <= i < hi ==> depth <= |keys[i]|
  }

  /** `sibs` cuts the range [lo, hi) into consecutive non-empty groups of keys with one code each. */
  predicate Groups(keys: seq<Word>, sibs: seq<Node>, lo: nat, hi: nat, depth: nat)
    requires hi <= |keys| && Deep(keys, lo, hi, depth)
  {
    && |sibs| > 0
    && sibs[0].left == lo
    && sibs[|sibs|-1].right == hi
    && Increasing(sibs)
    && (forall j :: 0 <= j < |sibs| - 1 ==> sibs[j].right == sibs[j+1].left)
    && (forall j :: 0 <= j < |sibs| ==> GroupAt(keys, sibs, j, lo, hi, depth))
  }

  predicate GroupAt(keys: seq<Word>, sibs: seq<Node>, j: nat, lo: nat, hi: nat, depth: nat)
    requires hi <= |keys| && Deep(keys, lo, hi, depth) && j < |sibs|
  {
    && sibs[j].depth == depth + 1
    && lo <= sibs[j].left < sibs[j].right <= hi
    && forall i :: sibs[j].left <= i < sibs[j].right ==> CodeAt(keys[i], depth) == sibs[j].code
  }

  predicate OrderedCodes(keys: seq<Word>, lo: nat, hi: nat, depth: nat)
    requires hi <= |keys| && Deep(keys, lo, hi, depth)
  {
    forall i :: lo <= i && i + 1 < hi ==> CodeAt(keys[i], depth) <= CodeAt(keys[i+1], depth)
  }

  /** The groups of a range being cut, before the last one's right end is known. */
  predicate OpenGroups(keys: seq<Word>, sibs: seq<Node>, lo: nat, hi: nat, depth: nat)
    requires hi <= |keys| && Deep(keys, lo, hi, depth)
  {
    |sibs| > 0 ==>
      Groups(keys, Closed(sibs, hi), lo, hi, depth)
  }

  /** Closes the last group of a list at `hi`. */
  function Closed(sibs: seq<Node>, hi: nat): seq<Node>
    requires |sibs| > 0
  {
    sibs[|sibs|-1 := sibs[|sibs|-1].(right := hi)]
  }

  lemma NoGroupYet(keys: seq<Word>, lo: nat, depth: nat)
    requires lo <= |keys| && Deep(keys, lo, lo, depth)
    ensures OpenGroups(keys, [], lo, lo, depth)
  {
  }

  lemma GroupsWhenClosed(keys: seq<Word>, sibs: seq<Node>, lo: nat, hi: nat, depth: nat)
    requires hi <= |keys| && Deep(keys, lo, hi, depth) && OpenGroups(keys, sibs, lo, hi, depth) && sibs != []
    ensures Groups(keys, Closed(sibs, hi), lo, hi, depth)
  {
  }

  /** The next key has the code of the last group, and joins it. */
  lemma GroupsExtend(keys: seq<Word>, sibs: seq<Node>, lo: nat, hi: nat, depth: nat)
    requires lo <= hi < |keys| && Deep(keys, lo, hi + 1, depth) && Groups(keys, sibs, lo, hi, depth)
    requires CodeAt(keys[hi], depth) == sibs[|sibs|-1].code
    ensures Groups(keys, Closed(sibs, hi + 1), lo, hi + 1, depth)
  {
    var hi', sibs' := hi + 1, Closed(sibs, hi + 1);
    forall j | 0 <= j < |sibs'| ensures GroupAt(keys, sibs', j, lo, hi', depth) {
      assert GroupAt(keys, sibs, j, lo, hi, depth);
    }
  }

  /** The next key has a larger code, and opens a group of its own. */
  lemma GroupsOpen(keys: seq<Word>, sibs: seq<Node>, lo: nat, hi: nat, depth: nat)
    requires lo <= hi < |keys| && Deep(keys, lo, hi + 1, depth) && Groups(keys, sibs, lo, hi, depth)
    requires CodeAt(keys[hi], depth) > sibs[|sibs|-1].code
    ensures Groups(keys, sibs + [Node(CodeAt(keys[hi], depth), depth + 1, hi, hi + 1)], lo, hi + 1, depth)
  {
    var hi', sibs' := hi + 1, sibs + [Node(CodeAt(keys[hi], depth), depth + 1, hi, hi + 1)];
    forall j | 0 <= j < |sibs'| ensures GroupAt(keys, sibs', j, lo, hi', depth) {
      if j < |sibs| {
        assert GroupAt(keys, sibs, j, lo, hi, depth);
      } else {
        assert GroupAt(keys, sibs, j - 1, lo, hi, depth);
      }
    }
  }

  /** One step of the cut: the next key joins the last group or opens one, whose right end is left open. */
  lemma GroupsStep(keys: seq<Word>, sibs: seq<Node>, sibs': seq<Node>, lo: nat, hi: nat, depth: nat)
    requires lo <= hi < |keys| && Deep(keys, lo, hi + 1, depth) && OpenGroups(keys, sibs, lo, hi, depth)
    requires hi == lo <==> sibs == []
    requires sibs != [] ==> sibs[|sibs|-1].code <= CodeAt(keys[hi], depth)
    requires
      var next := Node(CodeAt(keys[hi], depth), depth + 1, hi, 0);
      sibs' == if sibs == [] then [next]
               else if next.code != sibs[|sibs|-1].code then Closed(sibs, hi) + [next]
               else sibs
    ensures |sibs'| > 0 && sibs'[|sibs'|-1].code == CodeAt(keys[hi], depth)
    ensures OpenGroups(keys, sibs', lo, hi + 1, depth)
  {
    var c, hi' := CodeAt(keys[hi], depth), hi + 1;
    if sibs == [] {
      assert GroupAt(keys, Closed(sibs', hi'), 0, lo, hi', depth);
    } else if c != sibs[|sibs|-1].code {
      GroupsOpen(keys, Closed(sibs, hi), lo, hi, depth);
      assert Closed(sibs', hi') == Closed(sibs, hi) + [Node(c, depth + 1, hi, hi')];
    } else {
      GroupsExtend(keys, Closed(sibs, hi), lo, hi, depth);
      assert Closed(sibs', hi') == Closed(Closed(sibs, hi), hi');
    }
  }

  /** The range [lo, hi) holds exactly the keys that start with `q`. */
  predicate RangeOf(keys: seq<Word>, q: Word, lo: nat, hi: nat) {
    lo <= hi <= |keys| && forall i :: 0 <= i < |keys| ==> (lo <= i < hi <==> q <= keys[i])
  }

  /** `sibs` lists the children of the trie node `q`. */
  predicate Children(keys: seq<Word>, sibs: seq<Node>, q: Word, lo: nat, hi: nat) {
    RangeOf(keys, q, lo, hi) && lo < hi && Groups(keys, sibs, lo, hi, |q|)
  }

  predicate CodeIn(sibs: seq<Node>, code: int) {
    CodeAmong(sibs, |sibs|, code)
  }

  predicate CodeAmong(sibs: seq<Node>, n: nat, code: int)
    requires n <= |sibs|
  {
    exists j :: 0 <= j < n && sibs[j].code == code
  }

  /** Every key of a parent's range lies in one of the groups. */
  lemma {:induction false} GroupOf(keys: seq<Word>, sibs: seq<Node>, lo: nat, hi: nat, depth: nat, i: nat, n: nat)
      returns (j: nat)
    requires hi <= |keys| && Deep(keys, lo, hi, depth) && Groups(keys, sibs, lo, hi, depth)
    requires 0 < n <= |sibs| && lo <= i < sibs[n-1].right
    ensures j < n && sibs[j].left <= i < sibs[j].right
  {
    if i >= sibs[n-1].left {
      assert GroupAt(keys, sibs, n - 1, lo, hi, depth);
      j := n - 1;
    } else {
      assert n > 1;
      assert sibs[n-2].right == sibs[n-1].left;
      j := GroupOf(keys, sibs, lo, hi, depth, i, n - 1);
    }
  }

  /** A code the dictionary gives the node comes from a key of the range. */
  lemma CodeIsListed(keys: seq<Word>, values: Option<seq<int>>, sibs: seq<Node>, q: Word, lo: nat, hi: nat, code: Code)
    requires ValuesFit(keys, values) && Children(keys, sibs, q, lo, hi) && HasCode(DictOf(keys, values), q, code)
    ensures CodeIn(sibs, code)
  {
    hide Children, CodeIn;
    var d := DictOf(keys, values);
    var w: Word := q;
    if code != 0 {
      var q' := q + [code - 1];
      w :| w in d && q' <= w;
      assert w[|q|] == q'[|q|];
    }
    CodeOfKey(keys, sibs, q, lo, hi, w);
  }

  /** The first key of a group gives the node the group's code. */
  lemma ListedCodeIsThere(keys: seq<Word>, values: Option<seq<int>>, sibs: seq<Node>, q: Word, lo: nat, hi: nat, code: Code)
    requires ValuesFit(keys, values) && Children(keys, sibs, q, lo, hi) && CodeIn(sibs, code)
    ensures HasCode(DictOf(keys, values), q, code)
  {
    var j :| 0 <= j < |sibs| && sibs[j].code == code;
    assert GroupAt(keys, sibs, j, lo, hi, |q|);
    hide Groups, GroupAt;
    var k := keys[sibs[j].left];
    assert q <= k && k in DictOf(keys, values) && CodeAt(k, |q|) == code;
    if code > 0 {
      assert q + [code - 1] <= k;
    } else {
      assert q == k;
    }
  }

  /** The codes of a children list are exactly the codes the dictionary gives the node. */
  lemma CodesMatch(keys: seq<Word>, values: Option<seq<int>>, sibs: seq<Node>, q: Word, lo: nat, hi: nat, code: Code)
    requires ValuesFit(keys, values) && Children(keys, sibs, q, lo, hi)
    ensures HasCode(DictOf(keys, values), q, code) <==> CodeIn(sibs, code)
  {
    hide *;
    if HasCode(DictOf(keys, values), q, code) {
      CodeIsListed(keys, values, sibs, q, lo, hi, code);
    }
    if CodeIn(sibs, code) {
      ListedCodeIsThere(keys, values, sibs, q, lo, hi, code);
    }
  }

  lemma AllCodesMatch(keys: seq<Word>, values: Option<seq<int>>, sibs: seq<Node>, q: Word, lo: nat, hi: nat)
    requires ValuesFit(keys, values) && Children(keys, sibs, q, lo, hi)
    ensures q in ShapeOf(DictOf(keys, values))
    ensures CodesOf(sibs, ShapeOf(DictOf(keys, values))[q])
  {
    assert keys[lo] in DictOf(keys, values) && q <= keys[lo];
    forall c: Code ensures c in ShapeOf(DictOf(keys, values))[q] <==> CodeIn(sibs, c) {
      CodesMatch(keys, values, sibs, q, lo, hi, c);
    }
  }

  lemma CodeOfKey(keys: seq<Word>, sibs: seq<Node>, q: Word, lo: nat, hi: nat, w: Word)
    requires Children(keys, sibs, q, lo, hi) && w in keys && q <= w
    ensures CodeIn(sibs, CodeAt(w, |q|))
  {
    var i :| 0 <= i < |keys| && keys[i] == w;
    var j := GroupOf(keys, sibs, lo, hi, |q|, i, |sibs|);
    assert GroupAt(keys, sibs, j, lo, hi, |q|);
  }

  /** The group of a child holds exactly the keys that continue with its byte. */
  lemma ChildRange(keys: seq<Word>, sibs: seq<Node>, q: Word, lo: nat, hi: nat, j: nat)
    requires Children(keys, sibs, q, lo, hi) && j < |sibs|
    ensures sibs[j].right <= |keys| && sibs[j].left < sibs[j].right && sibs[j].depth == |q| + 1
    ensures sibs[j].code > 0 <==> Deep(keys, sibs[j].left, sibs[j].right, |q| + 1)
    ensures sibs[j].code == 0 ==> forall i :: sibs[j].left <= i < sibs[j].right ==> |keys[i]| < |q| + 1
    ensures 0 < sibs[j].code ==> RangeOf(keys, q + [sibs[j].code - 1], sibs[j].left, sibs[j].right)
    ensures sibs[j].code == 0 ==>
              forall i :: 0 <= i < |keys| ==> (sibs[j].left <= i < sibs[j].right <==> keys[i] == q)
  {
    assert GroupAt(keys, sibs, j, lo, hi, |q|);
    var c := sibs[j].code;
    assert CodeAt(keys[sibs[j].left], |q|) == c;
    forall i | 0 <= i < |keys|
      ensures 0 < c ==> (sibs[j].left <= i < sibs[j].right <==> q + [c - 1] <= keys[i])
      ensures c == 0 ==> (sibs[j].left <= i < sibs[j].right <==> keys[i] == q)
    {
      if sibs[j].left <= i < sibs[j].right {
        assert CodeAt(keys[i], |q|) == c;
      } else if lo <= i < hi {
        var j' := GroupOf(keys, sibs, lo, hi, |q|, i, |sibs|);
        assert GroupAt(keys, sibs, j', lo, hi, |q|);
        assert CodeAt(keys[i], |q|) == sibs[j'].code;
        assert j' != j;
        assert sibs[j'].code != c;
      }
    }
  }

  /** The first key of a code-0 group is the first occurrence of the node's word. */
  lemma TerminalValue(keys: seq<Word>, values: Option<seq<int>>, sibs: seq<Node>, q: Word, lo: nat, hi: nat, j: nat)
    requires ValuesFit(keys, values) && Children(keys, sibs, q, lo, hi) && j < |sibs| && sibs[j].code == 0
    ensures q in DictOf(keys, values) && sibs[j].left < |keys|
    ensures DictOf(keys, values)[q] == ValueAt(values, sibs[j].left)
  {
    ChildRange(keys, sibs, q, lo, hi, j);
    var l := sibs[j].left;
    assert keys[l] == q;
    var f := FirstIndex(keys, q);
    assert l <= f;
  }

  /** A node's range is buildable exactly when each of its groups is. */
  lemma {:induction false} BuildableByGroups(keys: seq<Word>, values: Option<seq<int>>, sibs: seq<Node>, q: Word,
                                             lo: nat, hi: nat, n: nat)
    requires ValuesFit(keys, values) && Children(keys, sibs, q, lo, hi) && 0 < n <= |sibs|
    requires forall j :: 0 <= j < |sibs| ==> sibs[j].left < sibs[j].right <= |keys|
    ensures lo < sibs[n-1].right <= hi
    ensures Buildable(keys, values, lo, sibs[n-1].right) <==>
              forall j :: 0 <= j < n ==> Buildable(keys, values, sibs[j].left, sibs[j].right)
  {
    assert GroupAt(keys, sibs, n - 1, lo, hi, |q|);
    if n > 1 {
      BuildableByGroups(keys, values, sibs, q, lo, hi, n - 1);
      var m := sibs[n-1].left;
      assert m == sibs[n-2].right;
      assert GroupAt(keys, sibs, n - 2, lo, hi, |q|);
      OrderByCode(q, keys[m-1], keys[m]);
      assert CodeAt(keys[m-1], |q|) == sibs[n-2].code < sibs[n-1].code == CodeAt(keys[m], |q|);
      SplitBuildable(keys, values, lo, m, sibs[n-1].right);
    }
  }

  lemma GroupsBounded(keys: seq<Word>, sibs: seq<Node>, q: Word, lo: nat, hi: nat)
    requires Children(keys, sibs, q, lo, hi)
    ensures forall j :: 0 <= j < |sibs| ==> sibs[j].left < sibs[j].right <= |keys|
    ensures |sibs| > 0 && sibs[|sibs|-1].right == hi <= |keys| && Increasing(sibs)
  {
    forall j | 0 <= j < |sibs| ensures sibs[j].left < sibs[j].right <= |keys| {
      assert GroupAt(keys, sibs, j, lo, hi, |q|);
    }
  }

  lemma SplitBuildable(keys: seq<Word>, values: Option<seq<int>>, lo: nat, mid: nat, hi: nat)
    requires ValuesFit(keys, values) && lo < mid < hi <= |keys|
    requires LessEq(keys[mid-1], keys[mid]) && keys[mid-1] != keys[mid]
    ensures Buildable(keys, values, lo, hi) <==>
              Buildable(keys, values, lo, mid) && Buildable(keys, values, mid, hi)
  {
    assert FirstNonNegative(keys, values, lo, mid) <==> FirstNonNegative(keys, values, mid, mid);
    assert forall i :: mid < i < hi ==> (FirstNonNegative(keys, values, lo, i) <==> FirstNonNegative(keys, values, mid, i));
    if FirstsNonNegative(keys, values, lo, mid) && FirstsNonNegative(keys, values, mid, hi) {
      forall i | lo <= i < hi ensures FirstNonNegative(keys, values, lo, i) {
        if i >= mid {
          assert FirstNonNegative(keys, values, mid, i);
        }
      }
    }
    if FirstsNonNegative(keys, values, lo, hi) {
      forall i | mid <= i < hi ensures FirstNonNegative(keys, values, mid, i) {
        assert FirstNonNegative(keys, values, lo, i);
      }
    }
  }

  /** A group of equal keys is buildable exactly when its first value is non-negative. */
  lemma EqualGroupBuildable(keys: seq<Word>, values: Option<seq<int>>, q: Word, lo: nat, hi: nat)
    requires ValuesFit(keys, values) && lo < hi <= |keys|
    requires forall i :: lo <= i < hi ==> keys[i] == q
    ensures Buildable(keys, values, lo, hi) <==> ValueAt(values, lo) >= 0
  {
    EqualKeysAreOrdered(q);
    assert SortedRange(keys, lo, hi);
    assert FirstNonNegative(keys, values, lo, lo) <==> ValueAt(values, lo) >= 0;
    assert forall i :: lo < i < hi ==> FirstNonNegative(keys, values, lo, i);
  }

  /** Keys that share a path but whose next codes are out of order cannot be built. */
  lemma UnorderedIsUnbuildable(keys: seq<Word>, values: Option<seq<int>>, q: Word, lo: nat, hi: nat)
    requires ValuesFit(keys, values) && RangeOf(keys, q, lo, hi)
    ensures Deep(keys, lo, hi, |q|)
    ensures Buildable(keys, values, lo, hi) ==> OrderedCodes(keys, lo, hi, |q|)
  {
    forall i | lo <= i && i + 1 < hi && LessEq(keys[i], keys[i+1])
      ensures CodeAt(keys[i], |q|) <= CodeAt(keys[i+1], |q|)
    {
      OrderByCode(q, keys[i], keys[i+1]);
    }
  }

  lemma LongerIsBounded(keys: seq<Word>, q: Word, lo: nat, hi: nat)
    requires RangeOf(keys, q, lo, hi) && lo < hi
    ensures |q| <= MaxLen(keys)
  {
    assert q <= keys[lo];
  }

  /** A code-0 child is buildable exactly when its first value, the word's value, is non-negative. */
  lemma TerminalBuildable(keys: seq<Word>, values: Option<seq<int>>, sibs: seq<Node>, q: Word, lo: nat, hi: nat, j: nat)
    requires ValuesFit(keys, values) && Children(keys, sibs, q, lo, hi) && j < |sibs| && sibs[j].code == 0
    ensures sibs[j].left < sibs[j].right <= |keys|
    ensures q in DictOf(keys, values) && DictOf(keys, values)[q] == ValueAt(values, sibs[j].left)
    ensures Buildable(keys, values, sibs[j].left, sibs[j].right) <==> ValueAt(values, sibs[j].left) >= 0
  {
    ChildRange(keys, sibs, q, lo, hi, j);
    TerminalValue(keys, values, sibs, q, lo, hi, j);
    EqualGroupBuildable(keys, values, q, sibs[j].left, sibs[j].right);
  }

  // ---------------------------------------------------------------- the packing invariant

  /** `owner` is the inverse of `nodes`: no two trie nodes share a begin, and the used begins are theirs. */
  ghost predicate Bijective(used: seq<bool>, nodes: map<Word, nat>, owner: map<nat, Word>) {
    && (forall q :: q in nodes ==> nodes[q] in owner && owner[nodes[q]] == q)
    && (forall b :: b in owner ==> owner[b] in nodes && nodes[owner[b]] == b && 1 <= b < |used| && used[b])
    && (forall b :: 0 <= b < |used| && used[b] ==> b in owner)
  }

  /** The position of a child: its parent's begin plus its code. */
  function Slot(begin: nat, c: Code): nat {
    begin + c
  }

  /** The slots at `begin` plus each code lie below `size` and carry `begin`. */
  ghost predicate TakenBy(units: seq<Unit>, size: nat, begin: nat, codes: set<Code>) {
    && size <= |units|
    && forall c: Code {:trigger Slot(begin, c)} :: c in codes ==> Slot(begin, c) < size && units[Slot(begin, c)].check == begin
  }

  /** Each child of a placed node occupies the slot at its begin plus its code. */
  ghost predicate SlotsTaken(units: seq<Unit>, size: nat, nodes: map<Word, nat>, shape: Shape)
    requires nodes.Keys <= shape.Keys
  {
    forall q :: q in nodes ==> TakenBy(units, size, nodes[q], shape[q])
  }

  ghost predicate HasOwner(owner: map<nat, Word>, shape: Shape, begin: nat, p: nat) {
    begin in owner && owner[begin] in shape && begin <= p <= begin + 256 && p - begin in shape[owner[begin]]
  }

  /** Each occupied slot belongs to the one placed node named by its check. */
  ghost predicate SlotsOwned(units: seq<Unit>, owner: map<nat, Word>, shape: Shape) {
    forall p :: 0 <= p < |units| && units[p].check != 0 ==>
      HasOwner(owner, shape, units[p].check, p)
  }

  ghost predicate Placed(units: seq<Unit>, used: seq<bool>, size: nat, nodes: map<Word, nat>, owner: map<nat, Word>,
                         shape: Shape)
  {
    && |used| == |units|
    && size <= |units|
    && nodes.Keys <= shape.Keys
    && (forall q :: q in nodes ==> nodes[q] < size)
    && Bijective(used, nodes, owner)
    && SlotsTaken(units, size, nodes, shape)
    && SlotsOwned(units, owner, shape)
  }

  lemma PlacedKeys(units: seq<Unit>, used: seq<bool>, size: nat, nodes: map<Word, nat>, owner: map<nat, Word>, shape: Shape)
    requires Placed(units, used, size, nodes, owner, shape)
    ensures nodes.Keys <= shape.Keys
  {
  }

  /** The slot of a child holds its link: the negated value of a word, or the begin of the longer path. */
  ghost predicate Filled(units: seq<Unit>, nodes: map<Word, nat>, d: map<Word, int>, q: Word, c: Code)
    requires q in nodes
  {
    && Slot(nodes[q], c) < |units|
    && (if c == 0 then q in d && d[q] >= 0 && units[nodes[q]].base == -d[q] - 1
        else q + [c - 1] in nodes && units[Slot(nodes[q], c)].base == nodes[q + [c - 1]])
  }

  ghost predicate AllFilled(units: seq<Unit>, nodes: map<Word, nat>, d: map<Word, int>, shape: Shape, q: Word)
    requires q in nodes && q in shape
  {
    forall c: Code :: c in shape[q] ==> Filled(units, nodes, d, q, c)
  }

  ghost predicate Grows(small: map<Word, nat>, big: map<Word, nat>) {
    forall q :: q in small ==> q in big && big[q] == small[q]
  }

  /** Slot 0, which holds the root's link, and all slots occupied before are unchanged after. */
  ghost predicate KeepsOccupied(before: seq<Unit>, after: seq<Unit>) {
    && |before| <= |after|
    && forall p :: 0 <= p < |before| && (p == 0 || before[p].check != 0) ==> after[p] == before[p]
  }

  /** The array only grew, by empty slots and unused begins. */
  ghost predicate Padded(units: seq<Unit>, used: seq<bool>, units': seq<Unit>, used': seq<bool>) {
    && |units| == |used| && |units'| == |used'|
    && units <= units' && used <= used'
    && forall p :: |units| <= p < |units'| ==> units'[p] == Unit(0, 0) && !used'[p]
  }

  lemma PaddedTwice(units: seq<Unit>, used: seq<bool>, units': seq<Unit>, used': seq<bool>,
                    units'': seq<Unit>, used'': seq<bool>)
    requires Padded(units, used, units', used') && Padded(units', used', units'', used'')
    ensures Padded(units, used, units'', used'')
  {
    forall p | |units| <= p < |units''| ensures units''[p] == Unit(0, 0) && !used''[p] {
      assert p < |units'| ==> units''[p] == units'[p] && used''[p] == used'[p];
    }
  }

  ghost predicate AllFree(units: seq<Unit>, used: seq<bool>) {
    |used| == |units| && forall p :: 0 <= p < |units| ==> units[p].check == 0 && !used[p]
  }

  lemma PaddedStaysFree(units: seq<Unit>, used: seq<bool>, units': seq<Unit>, used': seq<bool>)
    requires AllFree(units, used) && Padded(units, used, units', used')
    ensures AllFree(units', used')
  {
    forall p | 0 <= p < |units'| ensures units'[p].check == 0 && !used'[p] {
      assert p < |units| ==> units'[p] == units[p] && used'[p] == used[p];
    }
  }

  lemma NoPadding(units: seq<Unit>, used: seq<bool>)
    requires |used| == |units|
    ensures Padded(units, used, units, used)
  {
  }

  lemma SlotIsFree(units: seq<Unit>, used: seq<bool>, p: nat)
    requires AllFree(units, used) && p < |units|
    ensures units[p].check == 0
  {
  }

  lemma OccupiedIsOld(units: seq<Unit>, used: seq<bool>, units': seq<Unit>, used': seq<bool>, p: nat)
    requires Padded(units, used, units', used') && p < |units'| && units'[p].check != 0
    ensures p < |units|
  {
  }

  /** Slots past the old end are free, and so is a begin there. */
  lemma PaddingIsFree(units: seq<Unit>, units': seq<Unit>, used: seq<bool>, used': seq<bool>, sibs: seq<Node>, begin: nat)
    requires Padded(units, used, units', used')
    requires |sibs| > 0 && Increasing(sibs) && begin + sibs[|sibs|-1].code < |units'|
    requires begin >= |units| || AllFree(units, used)
    ensures !used'[begin] && FreeSlots(units', sibs, begin)
  {
    forall j | 0 <= j < |sibs|
      ensures begin + sibs[j].code < |units'| && units'[begin + sibs[j].code].check == 0
    {
      assert j < |sibs| - 1 ==> sibs[j].code < sibs[|sibs|-1].code;
      var p := begin + sibs[j].code;
      assert p < |units| ==> units'[p] == units[p];
    }
    assert begin < |used| ==> used'[begin] == used[begin];
  }

  lemma PlacedSurvivesPadding(units: seq<Unit>, units': seq<Unit>, used: seq<bool>, used': seq<bool>, size: nat,
                              nodes: map<Word, nat>, owner: map<nat, Word>, shape: Shape)
    requires Placed(units, used, size, nodes, owner, shape)
    requires Padded(units, used, units', used')
    ensures Placed(units', used', size, nodes, owner, shape)
  {
    forall p | 0 <= p < |units'| && units'[p].check != 0
      ensures HasOwner(owner, shape, units'[p].check, p)
    {
      assert p < |units| && units'[p] == units[p];
    }
  }

  /** Writing a base never disturbs the packing. */
  lemma PlacedIgnoresBase(units: seq<Unit>, used: seq<bool>, size: nat, nodes: map<Word, nat>, owner: map<nat, Word>,
                          shape: Shape, p: nat, base: int)
    requires Placed(units, used, size, nodes, owner, shape) && p < |units|
    ensures Placed(units[p := units[p].(base := base)], used, size, nodes, owner, shape)
  {
    var units' := units[p := units[p].(base := base)];
    assert forall i :: 0 <= i < |units| ==> units'[i].check == units[i].check;
  }

  /** The slots of `sibs` at `begin` become owned by `begin`; all others keep their content. */
  ghost predicate Claimed(before: seq<Unit>, after: seq<Unit>, sibs: seq<Node>, begin: nat) {
    && |after| == |before|
    && (forall j :: 0 <= j < |sibs| ==> begin + sibs[j].code < |before|)
    && (forall p :: 0 <= p < |before| ==>
          after[p] == if CodeIn(sibs, p - begin) then before[p].(check := begin) else before[p])
  }

  /** The slots `begin + code` of a children list are free. */
  ghost predicate FreeSlots(units: seq<Unit>, sibs: seq<Node>, begin: nat) {
    forall j :: 0 <= j < |sibs| ==> begin + sibs[j].code < |units| && units[begin + sibs[j].code].check == 0
  }

  ghost predicate CodesOf(sibs: seq<Node>, codes: set<Code>) {
    forall c: Code :: c in codes <==> CodeIn(sibs, c)
  }

  lemma ClaimKeepsOccupied(units: seq<Unit>, units': seq<Unit>, sibs: seq<Node>, begin: nat)
    requires FreeSlots(units, sibs, begin) && Claimed(units, units', sibs, begin) && begin >= 1
    ensures KeepsOccupied(units, units')
  {
    forall p | 0 <= p < |units| && (p == 0 || units[p].check != 0) ensures units'[p] == units[p] {
      assert !CodeIn(sibs, p - begin);
    }
  }

  lemma ClaimKeepsLength(units: seq<Unit>, units': seq<Unit>, sibs: seq<Node>, begin: nat)
    requires Claimed(units, units', sibs, begin)
    ensures |units'| == |units|
  {
  }

  lemma OwnedAfterClaim(units: seq<Unit>, units': seq<Unit>, owner: map<nat, Word>, shape: Shape,
                        q: Word, sibs: seq<Node>, begin: nat)
    requires SlotsOwned(units, owner, shape) && begin !in owner && q in shape && CodesOf(sibs, shape[q])
    requires FreeSlots(units, sibs, begin) && Claimed(units, units', sibs, begin)
    ensures SlotsOwned(units', owner[begin := q], shape)
  {
    var owner' := owner[begin := q];
    forall p | 0 <= p < |units'| && units'[p].check != 0 ensures HasOwner(owner', shape, units'[p].check, p) {
      if CodeIn(sibs, p - begin) {
        var c: Code := p - begin;
        assert c in shape[q];
      } else {
        assert HasOwner(owner, shape, units[p].check, p);
      }
    }
  }

  lemma TakenAfterClaim(units: seq<Unit>, units': seq<Unit>, size: nat, codes: set<Code>, sibs: seq<Node>, begin: nat)
    requires CodesOf(sibs, codes) && Increasing(sibs) && |sibs| > 0
    requires Claimed(units, units', sibs, begin)
    requires size <= |units| && begin + sibs[|sibs|-1].code < size
    ensures TakenBy(units', size, begin, codes)
  {
    forall c: Code | c in codes ensures Slot(begin, c) < size && units'[Slot(begin, c)].check == begin {
      assert CodeIn(sibs, c);
      var j :| 0 <= j < |sibs| && sibs[j].code == c;
      assert j < |sibs| - 1 ==> sibs[j].code < sibs[|sibs|-1].code;
      assert CodeIn(sibs, Slot(begin, c) - begin);
    }
  }

  lemma TakenStaysTaken(units: seq<Unit>, units': seq<Unit>, size: nat, size': nat, begin: nat, codes: set<Code>)
    requires TakenBy(units, size, begin, codes) && KeepsOccupied(units, units') && size <= size' <= |units'| && begin >= 1
    ensures TakenBy(units', size', begin, codes)
  {
  }

  lemma AllTakenAfterClaim(units: seq<Unit>, units': seq<Unit>, size: nat, size': nat, nodes: map<Word, nat>, shape: Shape,
                           q: Word, begin: nat)
    requires nodes.Keys <= shape.Keys && SlotsTaken(units, size, nodes, shape)
    requires (forall r :: r in nodes ==> nodes[r] >= 1)
    requires q in shape && TakenBy(units', size', begin, shape[q])
    requires KeepsOccupied(units, units') && size <= size' <= |units'|
    ensures SlotsTaken(units', size', nodes[q := begin], shape)
  {
    forall r | r in nodes && r != q ensures TakenBy(units', size', nodes[r], shape[r]) {
      TakenStaysTaken(units, units', size, size', nodes[r], shape[r]);
    }
  }

  lemma BijectiveAfterClaim(used: seq<bool>, nodes: map<Word, nat>, owner: map<nat, Word>, q: Word, begin: nat)
    requires Bijective(used, nodes, owner) && q !in nodes && 1 <= begin < |used| && !used[begin]
    ensures Bijective(used[begin := true], nodes[q := begin], owner[begin := q])
  {
  }

  /** Placing a new node on free slots at an unused begin keeps the packing. */
  lemma PlacedAfterClaim(units: seq<Unit>, units': seq<Unit>, used: seq<bool>, size: nat, size': nat,
                         nodes: map<Word, nat>, owner: map<nat, Word>, shape: Shape,
                         q: Word, sibs: seq<Node>, begin: nat)
    requires Placed(units, used, size, nodes, owner, shape)
    requires q in shape && q !in nodes && CodesOf(sibs, shape[q]) && Increasing(sibs) && |sibs| > 0
    requires 1 <= begin < |units| && !used[begin]
    requires FreeSlots(units, sibs, begin) && Claimed(units, units', sibs, begin)
    requires size <= size' <= |units| && begin + sibs[|sibs|-1].code < size'
    ensures Placed(units', used[begin := true], size', nodes[q := begin], owner[begin := q], shape)
    ensures KeepsOccupied(units, units')
  {
    hide Claimed, FreeSlots, CodesOf, SlotsOwned, TakenBy, KeepsOccupied, Increasing;
    ClaimKeepsOccupied(units, units', sibs, begin);
    ClaimKeepsLength(units, units', sibs, begin);
    OwnedAfterClaim(units, units', owner, shape, q, sibs, begin);
    TakenAfterClaim(units, units', size', shape[q], sibs, begin);
    assert forall r :: r in nodes ==> nodes[r] in owner;
    AllTakenAfterClaim(units, units', size, size', nodes, shape, q, begin);
    BijectiveAfterClaim(used, nodes, owner, q, begin);
  }

  /** Slot 0 and the slots occupied before keep their check after, and their base too except at `p`. */
  ghost predicate KeepsOccupiedBut(before: seq<Unit>, after: seq<Unit>, p: nat) {
    && |before| <= |after|
    && forall i :: 0 <= i < |before| && (i == 0 || before[i].check != 0) ==>
         after[i].check == before[i].check && (i != p ==> after[i].base == before[i].base)
  }

  /** A filled child stays filled while other slots change. */
  lemma FilledStaysFilled(units: seq<Unit>, units': seq<Unit>, nodes: map<Word, nat>, nodes': map<Word, nat>,
                          d: map<Word, int>, q: Word, c: Code, p: nat)
    requires q in nodes && Filled(units, nodes, d, q, c) && units[Slot(nodes[q], c)].check != 0
    requires KeepsOccupiedBut(units, units', p) && Grows(nodes, nodes') && p != Slot(nodes[q], c)
    ensures q in nodes' && Filled(units', nodes', d, q, c)
  {
    assert c == 0 ==> Slot(nodes[q], c) == nodes[q];
  }

  lemma AllFilledStaysFilled(units: seq<Unit>, units': seq<Unit>, size: nat, nodes: map<Word, nat>, nodes': map<Word, nat>,
                             d: map<Word, int>, shape: Shape, q: Word, p: nat, begin: nat)
    requires q in nodes && q in shape && AllFilled(units, nodes, d, shape, q)
    requires nodes[q] >= 1 && TakenBy(units, size, nodes[q], shape[q])
    requires KeepsOccupiedBut(units, units', p) && Grows(nodes, nodes')
    requires p < |units| && units[p].check == begin && begin != nodes[q]
    ensures q in nodes' && AllFilled(units', nodes', d, shape, q)
  {
    forall c: Code | c in shape[q] ensures Filled(units', nodes', d, q, c) {
      assert Slot(nodes[q], c) < size && units[Slot(nodes[q], c)].check == nodes[q];
      FilledStaysFilled(units, units', nodes, nodes', d, q, c, p);
    }
  }

  /** No placed node starts with `q`. */
  ghost predicate NoneBelow(nodes: map<Word, nat>, q: Word) {
    forall r :: r in nodes ==> !(q <= r)
  }

  /** The child of `q` with this code has no nodes yet. */
  ghost predicate ChildIsNew(nodes: map<Word, nat>, q: Word, code: Code) {
    code > 0 ==> NoneBelow(nodes, q + [code - 1])
  }

  /** Every node placed since `before` starts with `q`. */
  ghost predicate NewBelow(before: map<Word, nat>, after: map<Word, nat>, q: Word) {
    forall r :: r in after && r !in before ==> q <= r
  }

  /** Every node placed since `before` has all its children linked. */
  ghost predicate NewFilled(before: map<Word, nat>, nodes: map<Word, nat>, units: seq<Unit>, d: map<Word, int>, shape: Shape)
    requires nodes.Keys <= shape.Keys
  {
    forall r :: r in nodes && r !in before ==> AllFilled(units, nodes, d, shape, r)
  }

  /** The slots of a children list carry its begin. */
  ghost predicate OwnSlots(units: seq<Unit>, sibs: seq<Node>, begin: nat) {
    forall j :: 0 <= j < |sibs| ==> Slot(begin, sibs[j].code) < |units| && units[Slot(begin, sibs[j].code)].check == begin
  }

  /** Every node placed since `placed` continues `q` with a code below `bound`. */
  ghost predicate LinkedBefore(placed: map<Word, nat>, nodes: map<Word, nat>, q: Word, bound: int) {
    forall r :: r in nodes && r !in placed ==> |q| < |r| && q <= r && r[|q|] + 1 < bound
  }

  /** Before a child is linked, nothing is placed under its path. */
  lemma NoneBelowNext(before: map<Word, nat>, nodes: map<Word, nat>, q: Word, begin: nat, code: Code)
    requires NoneBelow(before, q) && LinkedBefore(before[q := begin], nodes, q, code) && code > 0
    ensures NoneBelow(nodes, q + [code - 1])
  {
    forall r | r in nodes ensures !(q + [code - 1] <= r) {
      if r != q && r !in before {
        assert r[|q|] + 1 < code;
        assert (q + [code - 1])[|q|] == code - 1;
      }
    }
  }

  lemma LinkedThrough(placed: map<Word, nat>, nodes: map<Word, nat>, nodes': map<Word, nat>, q: Word, code: Code, bound: int)
    requires LinkedBefore(placed, nodes, q, code) && code < bound
    requires Grows(nodes, nodes')
    requires if code > 0 then NewBelow(nodes, nodes', q + [code - 1]) else nodes' == nodes
    ensures LinkedBefore(placed, nodes', q, bound)
  {
    forall r | r in nodes' && r !in placed ensures |q| < |r| && q <= r && r[|q|] + 1 < bound {
      if r !in nodes {
        assert q + [code - 1] <= r;
        assert r[|q|] == (q + [code - 1])[|q|];
      }
    }
  }

  lemma GrownBelow(before: map<Word, nat>, nodes: map<Word, nat>, q: Word, begin: nat, bound: int)
    requires NoneBelow(before, q)
    requires Grows(before[q := begin], nodes) && LinkedBefore(before[q := begin], nodes, q, bound)
    ensures Grows(before, nodes) && NewBelow(before, nodes, q) && q in nodes && nodes[q] == begin
  {
    assert q !in before;
    assert q in before[q := begin];
  }

  lemma KeptThrough(units: seq<Unit>, units': seq<Unit>, units'': seq<Unit>, p: nat)
    requires KeepsOccupied(units, units') && KeepsOccupiedBut(units', units'', p)
    requires p >= 1 && (p >= |units| || units[p].check == 0)
    ensures KeepsOccupied(units, units'')
  {
    forall i | 0 <= i < |units| && (i == 0 || units[i].check != 0) ensures units''[i] == units[i] {
      assert units'[i] == units[i];
    }
  }

  lemma LeafFilled(units: seq<Unit>, nodes: map<Word, nat>, d: map<Word, int>, q: Word, value: int)
    requires q in nodes && nodes[q] < |units| && q in d && d[q] == value >= 0 && units[nodes[q]].base == -value - 1
    ensures Filled(units, nodes, d, q, 0)
  {
    assert Slot(nodes[q], 0) == nodes[q];
  }

  lemma NewFilledKept(before: map<Word, nat>, nodes: map<Word, nat>, units: seq<Unit>, units': seq<Unit>, used: seq<bool>,
                      size: nat, owner: map<nat, Word>, d: map<Word, int>, shape: Shape, q: Word, p: nat)
    requires Placed(units, used, size, nodes, owner, shape) && NewFilled(before, nodes, units, d, shape)
    requires KeepsOccupiedBut(units, units', p)
    requires q in before && q in nodes && p < |units| && units[p].check == nodes[q]
    ensures NewFilled(before, nodes, units', d, shape)
  {
    forall r | r in nodes && r !in before ensures AllFilled(units', nodes, d, shape, r) {
      assert nodes[r] in owner && nodes[q] in owner;
      AllFilledStaysFilled(units, units', size, nodes, nodes, d, shape, r, p, nodes[q]);
    }
  }

  /** Nodes filled before a link stay filled after it. */
  lemma NewFilledCarries(placed: map<Word, nat>, nodes: map<Word, nat>, nodes': map<Word, nat>, units: seq<Unit>,
                         units': seq<Unit>, used: seq<bool>, size: nat, owner: map<nat, Word>,
                         d: map<Word, int>, shape: Shape, q: Word, p: nat)
    requires Placed(units, used, size, nodes, owner, shape) && nodes'.Keys <= shape.Keys
    requires NewFilled(placed, nodes, units, d, shape) && NewFilled(nodes, nodes', units', d, shape)
    requires Grows(nodes, nodes') && KeepsOccupiedBut(units, units', p)
    requires q in placed && q in nodes && p < |units| && units[p].check == nodes[q]
    ensures NewFilled(placed, nodes', units', d, shape)
  {
    forall r | r in nodes' && r !in placed ensures AllFilled(units', nodes', d, shape, r) {
      if r in nodes {
        assert nodes[r] in owner && nodes[q] in owner;
        AllFilledStaysFilled(units, units', size, nodes, nodes', d, shape, r, p, nodes[q]);
      }
    }
  }

  /** Claiming free slots for a children list places its node and gives it its slots. */
  lemma PlaceChildren(keys: seq<Word>, values: Option<seq<int>>, units: seq<Unit>, units': seq<Unit>, used: seq<bool>,
                      size: nat, size': nat, nodes: map<Word, nat>, owner: map<nat, Word>, shape: Shape,
                      q: Word, lo: nat, hi: nat, sibs: seq<Node>, begin: nat)
    requires ValuesFit(keys, values) && shape == ShapeOf(DictOf(keys, values))
    requires Placed(units, used, size, nodes, owner, shape)
    requires Children(keys, sibs, q, lo, hi) && q !in nodes
    requires 1 <= begin < |units| && !used[begin]
    requires FreeSlots(units, sibs, begin) && Claimed(units, units', sibs, begin)
    requires size <= size' <= |units| && begin + sibs[|sibs|-1].code < size'
    ensures Placed(units', used[begin := true], size', nodes[q := begin], owner[begin := q], shape)
    ensures KeepsOccupied(units, units') && OwnSlots(units', sibs, begin)
  {
    AllCodesMatch(keys, values, sibs, q, lo, hi);
    PlacedAfterClaim(units, units', used, size, size', nodes, owner, shape, q, sibs, begin);
    OwnSlotsClaimed(units, units', sibs, begin);
  }

  lemma OwnSlotsClaimed(units: seq<Unit>, units': seq<Unit>, sibs: seq<Node>, begin: nat)
    requires Claimed(units, units', sibs, begin)
    ensures OwnSlots(units', sibs, begin)
  {
    forall j | 0 <= j < |sibs|
      ensures Slot(begin, sibs[j].code) < |units'| && units'[Slot(begin, sibs[j].code)].check == begin
    {
      assert CodeIn(sibs, Slot(begin, sibs[j].code) - begin);
    }
  }

  // ---------------------------------------------------------------- linking the children of one node

  /** The code of the i-th child, or one past every code after the last. */
  function NextCode(sibs: seq<Node>, i: nat): (c: nat)
    requires i <= |sibs|
  {
    if i < |sibs| then sibs[i].code else 257
  }

  /** `q` was placed at `begin` on slots that were free, and its first i children have been visited. */
  ghost predicate Linking(units0: seq<Unit>, nodes0: map<Word, nat>, units: seq<Unit>, nodes: map<Word, nat>,
                          q: Word, begin: nat, sibs: seq<Node>, i: nat)
    requires i <= |sibs|
  {
    && begin >= 1
    && NoneBelow(nodes0, q)
    && Increasing(sibs)
    && (forall j :: 0 <= j < |sibs| && Slot(begin, sibs[j].code) < |units0| ==> units0[Slot(begin, sibs[j].code)].check == 0)
    && KeepsOccupied(units0, units)
    && OwnSlots(units, sibs, begin)
    && Grows(nodes0[q := begin], nodes)
    && LinkedBefore(nodes0[q := begin], nodes, q, NextCode(sibs, i))
  }

  /** The first i children of `q` are filled, and so is every other node placed with them. */
  ghost predicate Linked(nodes0: map<Word, nat>, units: seq<Unit>, nodes: map<Word, nat>, d: map<Word, int>, shape: Shape,
                         q: Word, begin: nat, sibs: seq<Node>, i: nat)
    requires i <= |sibs| && nodes.Keys <= shape.Keys
  {
    && q in nodes
    && (forall j :: 0 <= j < i ==> Filled(units, nodes, d, q, sibs[j].code))
    && NewFilled(nodes0[q := begin], nodes, units, d, shape)
  }

  lemma LinkingStarts(units0: seq<Unit>, used0: seq<bool>, unitsP: seq<Unit>, usedP: seq<bool>, nodes0: map<Word, nat>, units: seq<Unit>, nodes: map<Word, nat>,
                      d: map<Word, int>, shape: Shape, q: Word, begin: nat, sibs: seq<Node>)
    requires NoneBelow(nodes0, q) && Increasing(sibs) && begin >= 1
    requires Padded(units0, used0, unitsP, usedP) && FreeSlots(unitsP, sibs, begin) && KeepsOccupied(unitsP, units)
    requires nodes == nodes0[q := begin] && OwnSlots(units, sibs, begin) && nodes.Keys <= shape.Keys
    ensures Linking(units0, nodes0, units, nodes, q, begin, sibs, 0)
    ensures Linked(nodes0, units, nodes, d, shape, q, begin, sibs, 0)
  {
    forall j | 0 <= j < |sibs| && Slot(begin, sibs[j].code) < |units0|
      ensures units0[Slot(begin, sibs[j].code)].check == 0
    {
      assert unitsP[begin + sibs[j].code] == units0[begin + sibs[j].code];
    }
  }

  /** What linking one child promises: only that slot's base changes, and new nodes lie under its path. */
  ghost predicate LinkOf(units: seq<Unit>, nodes: map<Word, nat>, units': seq<Unit>, nodes': map<Word, nat>,
                         q: Word, begin: nat, code: Code)
  {
    && KeepsOccupiedBut(units, units', Slot(begin, code))
    && Grows(nodes, nodes')
    && (if code > 0 then NewBelow(nodes, nodes', q + [code - 1]) else nodes' == nodes)
  }

  lemma LeafLinkOf(units: seq<Unit>, units': seq<Unit>, nodes: map<Word, nat>, q: Word, begin: nat, code: Code,
                   d: map<Word, int>, shape: Shape)
    requires Slot(begin, code) < |units| && nodes.Keys <= shape.Keys
    requires |units'| == |units| && forall p :: 0 <= p < |units| ==>
               units'[p].check == units[p].check && (p != Slot(begin, code) ==> units'[p] == units[p])
    ensures LinkOf(units, nodes, units', nodes, q, begin, code) && NewFilled(nodes, nodes, units', d, shape)
  {
  }

  lemma LinkingNext(units0: seq<Unit>, nodes0: map<Word, nat>, units: seq<Unit>, nodes: map<Word, nat>,
                    units': seq<Unit>, nodes': map<Word, nat>, q: Word, begin: nat, sibs: seq<Node>, i: nat)
    requires i < |sibs| && Linking(units0, nodes0, units, nodes, q, begin, sibs, i)
    requires LinkOf(units, nodes, units', nodes', q, begin, sibs[i].code)
    ensures Linking(units0, nodes0, units', nodes', q, begin, sibs, i + 1) && q in nodes'
  {
    assert q in nodes0[q := begin];
    LinkedThrough(nodes0[q := begin], nodes, nodes', q, sibs[i].code, NextCode(sibs, i + 1));
    KeptThrough(units0, units, units', Slot(begin, sibs[i].code));
  }

  lemma LinkedNext(units0: seq<Unit>, nodes0: map<Word, nat>, units: seq<Unit>, nodes: map<Word, nat>,
                   units': seq<Unit>, nodes': map<Word, nat>, used: seq<bool>, size: nat, owner: map<nat, Word>,
                   d: map<Word, int>, shape: Shape, q: Word, begin: nat, sibs: seq<Node>, i: nat)
    requires i < |sibs| && Linking(units0, nodes0, units, nodes, q, begin, sibs, i)
    requires Placed(units, used, size, nodes, owner, shape) && nodes'.Keys <= shape.Keys
    requires Linked(nodes0, units, nodes, d, shape, q, begin, sibs, i)
    requires LinkOf(units, nodes, units', nodes', q, begin, sibs[i].code)
    requires q in nodes' && Filled(units', nodes', d, q, sibs[i].code) && NewFilled(nodes, nodes', units', d, shape)
    ensures Linked(nodes0, units', nodes', d, shape, q, begin, sibs, i + 1)
  {
    var p := Slot(begin, sibs[i].code);
    assert q in nodes0[q := begin] && nodes[q] == begin;
    forall j | 0 <= j < i ensures Filled(units', nodes', d, q, sibs[j].code) {
      FilledStaysFilled(units, units', nodes, nodes', d, q, sibs[j].code, p);
    }
    NewFilledCarries(nodes0[q := begin], nodes, nodes', units, units', used, size, owner, d, shape, q, p);
  }

  /** When every listed child is filled, the node is, and with it all nodes placed on the way. */
  lemma NewFilledWithNode(nodes0: map<Word, nat>, nodes: map<Word, nat>, units: seq<Unit>, d: map<Word, int>, shape: Shape,
                          q: Word, begin: nat, sibs: seq<Node>)
    requires nodes.Keys <= shape.Keys && q in nodes && CodesOf(sibs, shape[q])
    requires Linked(nodes0, units, nodes, d, shape, q, begin, sibs, |sibs|)
    ensures NewFilled(nodes0, nodes, units, d, shape)
  {
    forall r | r in nodes && r !in nodes0 ensures AllFilled(units, nodes, d, shape, r) {
      if r != q {
        assert r !in nodes0[q := begin];
      }
    }
  }

  lemma NothingMoved(units: seq<Unit>, nodes: map<Word, nat>, q: Word)
    ensures KeepsOccupied(units, units) && Grows(nodes, nodes) && NewBelow(nodes, nodes, q)
  {
  }

  lemma LinkingKeeps(units0: seq<Unit>, nodes0: map<Word, nat>, units: seq<Unit>, nodes: map<Word, nat>,
                     q: Word, begin: nat, sibs: seq<Node>, i: nat)
    requires i <= |sibs| && Linking(units0, nodes0, units, nodes, q, begin, sibs, i)
    ensures KeepsOccupied(units0, units) && Grows(nodes0, nodes) && NewBelow(nodes0, nodes, q)
    ensures q in nodes && nodes[q] == begin && OwnSlots(units, sibs, begin)
    ensures i < |sibs| && sibs[i].code > 0 ==> NoneBelow(nodes, q + [sibs[i].code - 1])
  {
    GrownBelow(nodes0, nodes, q, begin, NextCode(sibs, i));
    if i < |sibs| && sibs[i].code > 0 {
      NoneBelowNext(nodes0, nodes, q, begin, sibs[i].code);
    }
  }

  // ---------------------------------------------------------------- the finished index

  /** The units hold the trie: the slot at begin plus code carries the begin exactly for the codes of the node. */
  ghost predicate NodePacked(units: seq<Unit>, nodes: map<Word, nat>, d: map<Word, int>, shape: Shape, q: Word)
    requires q in nodes && q in shape
  {
    && nodes[q] >= 1
    && nodes[q] + 256 < |units|
    && (forall c: Code {:trigger Slot(nodes[q], c)} :: units[Slot(nodes[q], c)].check == nodes[q] <==> c in shape[q])
    && AllFilled(units, nodes, d, shape, q)
  }

  ghost predicate PackedShape(units: seq<Unit>, nodes: map<Word, nat>, d: map<Word, int>, shape: Shape) {
    && |units| > 0
    && [] in nodes && nodes[[]] == units[0].base == 1
    && nodes.Keys == shape.Keys
    && (forall q :: q in nodes ==> NodePacked(units, nodes, d, shape, q))
  }

  ghost predicate Packed(units: seq<Unit>, nodes: map<Word, nat>, d: map<Word, int>) {
    PackedShape(units, nodes, d, ShapeOf(d))
  }

  ghost predicate IsTrie(units: seq<Unit>, d: map<Word, int>) {
    exists nodes :: Packed(units, nodes, d)
  }

  /** One search step: the slot after `q` for a byte answers whether the longer path exists, and leads to it. */
  lemma StepFollowsPath(units: seq<Unit>, nodes: map<Word, nat>, d: map<Word, int>, q: Word, x: Byte)
    requires Packed(units, nodes, d) && q in nodes
    ensures nodes[q] + x + 1 < |units| && nodes[q] >= 1
    ensures units[nodes[q] + x + 1].check == nodes[q] <==> IsPath(d, q + [x])
    ensures IsPath(d, q + [x]) ==> q + [x] in nodes && units[nodes[q] + x + 1].base == nodes[q + [x]]
  {
    var shape, c: Code := ShapeOf(d), x + 1;
    assert NodePacked(units, nodes, d, shape, q);
    assert Slot(nodes[q], c) == nodes[q] + x + 1;
    assert c in shape[q] <==> HasCode(d, q, c);
    if c in shape[q] {
      assert Filled(units, nodes, d, q, c);
    }
  }

  /** At a node, the slot at its begin answers whether the path is a word, and holds its value. */
  lemma EndHoldsValue(units: seq<Unit>, nodes: map<Word, nat>, d: map<Word, int>, q: Word)
    requires Packed(units, nodes, d) && q in nodes
    ensures nodes[q] < |units| && nodes[q] >= 1 && IsPath(d, q)
    ensures units[nodes[q]].check == nodes[q] && units[nodes[q]].base < 0 <==> q in d
    ensures q in d ==> -units[nodes[q]].base - 1 == d[q] >= 0
  {
    var shape := ShapeOf(d);
    assert NodePacked(units, nodes, d, shape, q);
    assert Slot(nodes[q], 0) == nodes[q];
    assert 0 in shape[q] <==> HasCode(d, q, 0);
    if 0 in shape[q] {
      assert Filled(units, nodes, d, q, 0);
    }
  }

  lemma RootIsPlaced(units: seq<Unit>, nodes: map<Word, nat>, d: map<Word, int>)
    requires Packed(units, nodes, d)
    ensures |units| > 0 && [] in nodes && units[0].base == nodes[[]]
  {
  }

  /** When every placed node is filled, the placed nodes are all the paths. */
  lemma {:induction false} FilledReachesPath(units: seq<Unit>, nodes: map<Word, nat>, d: map<Word, int>, q: Word, n: nat)
    requires [] in nodes && nodes.Keys <= ShapeOf(d).Keys
    requires forall r :: r in nodes ==> AllFilled(units, nodes, d, ShapeOf(d), r)
    requires IsPath(d, q) && n <= |q|
    ensures q[..n] in nodes
  {
    if n > 0 {
      FilledReachesPath(units, nodes, d, q, n - 1);
      PrefixOfPathIsPath(d, q, n);
      var r, c: Code := q[..n-1], q[n-1] as int + 1;
      assert q[..n] == r + [c - 1];
      assert HasCode(d, r, c);
      assert Filled(units, nodes, d, r, c);
    } else {
      assert q[..n] == [];
    }
  }

  lemma FilledIsComplete(units: seq<Unit>, nodes: map<Word, nat>, d: map<Word, int>)
    requires [] in nodes && nodes.Keys <= ShapeOf(d).Keys
    requires forall r :: r in nodes ==> AllFilled(units, nodes, d, ShapeOf(d), r)
    ensures nodes.Keys == ShapeOf(d).Keys
  {
    forall q | q in ShapeOf(d) ensures q in nodes {
      FilledReachesPath(units, nodes, d, q, |q|);
      assert q[..|q|] == q;
    }
  }

  /** A packing whose nodes are all filled, with room for any byte after any begin, is the trie of the dictionary. */
  lemma PackedFromPlaced(units: seq<Unit>, used: seq<bool>, size: nat, nodes: map<Word, nat>, owner: map<nat, Word>,
                         d: map<Word, int>, shape: Shape, units': seq<Unit>)
    requires Placed(units, used, size, nodes, owner, shape) && nodes.Keys == shape.Keys
    requires [] in nodes && nodes[[]] == 1 && (forall r :: r in nodes ==> AllFilled(units, nodes, d, shape, r))
    requires |units'| >= size + 256 && |units'| > 0
    requires forall p :: 0 <= p < |units'| ==> units'[p] == if p < |units| then units[p] else Unit(0, 0)
    requires units'[0].base == 1
    ensures PackedShape(units', nodes, d, shape)
  {
    forall q | q in nodes ensures NodePacked(units', nodes, d, shape, q) {
      assert nodes[q] in owner && owner[nodes[q]] == q;
      NodeFromPlaced(units, size, owner, d, shape, units', nodes, q);
    }
  }

  lemma NodeFromPlaced(units: seq<Unit>, size: nat, owner: map<nat, Word>, d: map<Word, int>, shape: Shape,
                       units': seq<Unit>, nodes: map<Word, nat>, q: Word)
    requires q in nodes && q in shape && 1 <= nodes[q] < size && nodes[q] in owner && owner[nodes[q]] == q
    requires TakenBy(units, size, nodes[q], shape[q]) && SlotsOwned(units, owner, shape)
    requires AllFilled(units, nodes, d, shape, q)
    requires |units'| >= size + 256
    requires forall p :: 0 <= p < |units'| ==> units'[p] == if p < |units| then units[p] else Unit(0, 0)
    ensures NodePacked(units', nodes, d, shape, q)
  {
    var b: nat := nodes[q];
    forall c: Code ensures units'[Slot(b, c)].check == b <==> c in shape[q] {
      CodesFromChecks(units, size, owner, shape, units', q, b, c);
    }
    forall c: Code | c in shape[q] ensures Filled(units', nodes, d, q, c) {
      assert Filled(units, nodes, d, q, c);
      assert Slot(b, c) < size;
    }
  }

  lemma CodesFromChecks(units: seq<Unit>, size: nat, owner: map<nat, Word>, shape: Shape, units': seq<Unit>,
                        q: Word, b: nat, c: Code)
    requires q in shape && 1 <= b < size && b in owner && owner[b] == q
    requires TakenBy(units, size, b, shape[q]) && SlotsOwned(units, owner, shape)
    requires |units'| >= size + 256
    requires forall p :: 0 <= p < |units'| ==> units'[p] == if p < |units| then units[p] else Unit(0, 0)
    ensures units'[Slot(b, c)].check == b <==> c in shape[q]
  {
    if units'[Slot(b, c)].check == b {
      assert Slot(b, c) < |units|;
      assert HasOwner(owner, shape, units[Slot(b, c)].check, Slot(b, c));
    }
  }

  lemma EmptyIsFree(units: seq<Unit>, used: seq<bool>, base: int)
    requires Padded([], [], units, used) && |units| > 0
    ensures AllFree(units[0 := units[0].(base := base)], used)
  {
  }

  lemma EmptyIsPlaced(units: seq<Unit>, used: seq<bool>, shape: Shape)
    requires AllFree(units, used)
    ensures Placed(units, used, 0, map[], map[], shape)
  {
  }

  lemma PlacedLengths(units: seq<Unit>, used: seq<bool>, size: nat, nodes: map<Word, nat>, owner: map<nat, Word>, shape: Shape)
    requires Placed(units, used, size, nodes, owner, shape)
    ensures |used| == |units| >= size
  {
  }

  lemma PaddedUnits(units: seq<Unit>, used: seq<bool>, units': seq<Unit>, used': seq<bool>)
    requires Padded(units, used, units', used')
    ensures |units| <= |units'|
    ensures forall p :: 0 <= p < |units'| ==> units'[p] == if p < |units| then units[p] else Unit(0, 0)
  {
  }

  lemma PackedAtRoot(units: seq<Unit>, used: seq<bool>, size: nat, nodes: map<Word, nat>, owner: map<nat, Word>,
                     d: map<Word, int>, shape: Shape, units': seq<Unit>)
    requires shape == ShapeOf(d) && Placed(units, used, size, nodes, owner, shape)
    requires [] in nodes && nodes[[]] == 1 && NewFilled(map[], nodes, units, d, shape)
    requires |units'| >= size + 256 && |units'| > 0 && units'[0].base == 1
    requires forall p :: 0 <= p < |units'| ==> units'[p] == if p < |units| then units[p] else Unit(0, 0)
    ensures Packed(units', nodes, d)
  {
    assert forall r :: r in nodes ==> AllFilled(units, nodes, d, shape, r);
    FilledIsComplete(units, nodes, d);
    PackedFromPlaced(units, used, size, nodes, owner, d, shape, units');
  }
}
