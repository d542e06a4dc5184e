// The double array as an object: `Build` and its recursive helpers write base/check units in place,
// the searches walk them.

module Darts {
  import opened Words
  import opened Packing

  /** One search result: the value, the matched length, and the slot reached (negative for a mere path). */
  datatype ResultPair = ResultPair(value: int, length: nat, pos: int)

  function Max(a: int, b: int): int {
    if a > b then a else b
  }

  /** The results from position `k` on are the same. */
  predicate SameFrom(before: seq<ResultPair>, after: seq<ResultPair>, k: nat) {
    |before| == |after| && forall j :: k <= j < |after| ==> after[j] == before[j]
  }

  // ---------------------------------------------------------------- how far the array grows

  /**
   * The size a growth step asks for: the old size times the larger of 1.05 and the keys per key done so far. While
   * no key is done that quotient is infinite, and what it converts to is undefined; the model takes the fallback
   * for a size of zero.
   */
  function GrownSize(size: nat, keyCount: nat, progress: nat): nat {
    if progress == 0 then size * keyCount
    else
      var share := keyCount as real / progress as real;
      (size as real * if share > 1.05 then share else 1.05).Floor
  }

  lemma TimesMonotone(size: real, low: real, high: real)
    requires size >= 0.0 && low <= high
    ensures size * low <= size * high
  {
  }

  lemma GrowthAdds(size: nat, keyCount: nat, progress: nat)
    requires keyCount >= 80 && size >= 64 * keyCount
    ensures GrownSize(size, keyCount, progress) >= size + 256
  {
    if progress == 0 {
      TimesMonotone(size as real, 2.0, keyCount as real);
      assert (size * keyCount) as real == size as real * keyCount as real;
    } else {
      var share := keyCount as real / progress as real;
      var factor := if share > 1.05 then share else 1.05;
      TimesMonotone(size as real, 1.05, factor);
      assert GrownSize(size, keyCount, progress) == (size as real * factor).Floor;
      assert size as real * factor >= (size + 256) as real;
    }
  }

  /** From eighty keys on, each with its 64 slots to begin with, a growth step holds every slot of the node. */
  lemma GrowthHoldsNode(size: nat, keyCount: nat, progress: nat, begin: nat, first: Code, last: Code)
    requires keyCount >= 80 && size >= 64 * keyCount && begin + first < size
    ensures GrownSize(size, keyCount, progress) > begin + last
  {
    GrowthAdds(size, keyCount, progress);
  }

  /** With two keys of the single bytes 1 and 255, it does not. */
  lemma GrowthFallsShort()
    ensures GrownSize(2 * 64, 2, 0) <= 1 + CodeAt([255], 0) as int
  {
  }

  class DoubleArray {
    var units: seq<Unit>
    var used: seq<bool>
    var size: nat
    var keys: seq<Word>
    var values: Option<seq<int>>
    var nextCheckPos: nat
    var error: int
    ghost var nodes: map<Word, nat>
    ghost var owner: map<nat, Word>
    ghost var dict: map<Word, int>
    ghost var shape: Shape

    /** The key list is the one whose trie is being packed. */
    ghost predicate Building()
      reads this
    {
      && ValuesFit(keys, values)
      && dict == DictOf(keys, values)
      && shape == ShapeOf(dict)
      && Placed(units, used, size, nodes, owner, shape)
    }

    twostate predicate SameInput()
      reads this
    {
      keys == old(keys) && values == old(values) && dict == old(dict) && shape == old(shape)
    }

    /** The first `size` units are the trie of `d`. */
    ghost predicate Represents(d: map<Word, int>)
      reads this
    {
      size <= |units| && Packed(units[..size], nodes, d)
    }

    constructor ()
      ensures units == [] && used == [] && size == 0 && error == 0
    {
      units, used, size, error := [], [], 0, 0;
      keys, values, nextCheckPos := [], None, 0;
      nodes, owner, dict, shape := map[], map[], map[], map[];
    }

    method Resize(newSize: nat)
      requires |used| == |units| <= newSize
      modifies this`units, this`used
      ensures |units| == |used| == newSize
      ensures Padded(old(units), old(used), units, used)
    {
      units := units + seq(newSize - |units|, _ => Unit(0, 0));
      used := used + seq(newSize - |used|, _ => false);
    }

    /** Cuts the keys of a node into its children; an unordered pair of codes is error -3. */
    method Fetch(parent: Node) returns (n: nat, sibs: seq<Node>)
      requires parent.left < parent.right <= |keys|
      requires Deep(keys, parent.left, parent.right, parent.depth)
            || forall i :: parent.left <= i < parent.right ==> |keys[i]| < parent.depth
      modifies this`error
      ensures old(error) < 0 ==> n == 0 && error == old(error)
      ensures old(error) >= 0 && !Deep(keys, parent.left, parent.right, parent.depth) ==> n == 0 && error == old(error)
      ensures old(error) >= 0 && Deep(keys, parent.left, parent.right, parent.depth) ==>
                && (error == old(error) <==> OrderedCodes(keys, parent.left, parent.right, parent.depth))
                && (error == old(error) ==> n == |sibs| > 0 && Groups(keys, sibs, parent.left, parent.right, parent.depth))
                && (error != old(error) ==> error == -3 && n == 0)
    {
      sibs := [];
      if error < 0 {
        return 0, sibs;
      }
      hide Groups, OpenGroups;
      NoGroupYet(keys, parent.left, parent.depth);
      var prev: Code := 0;
      var i := parent.left;
      ghost var deep := Deep(keys, parent.left, parent.right, parent.depth);
      while i < parent.right
        invariant parent.left <= i <= parent.right
        invariant error == old(error)
        invariant !deep ==> sibs == []
        invariant deep ==> OrderedCodes(keys, parent.left, i, parent.depth)
        invariant deep ==> (i == parent.left <==> sibs == [])
        invariant deep && i > parent.left ==> prev == CodeAt(keys[i-1], parent.depth)
        invariant i == parent.left ==> prev == 0
        invariant deep && sibs != [] ==> prev == sibs[|sibs|-1].code
        invariant deep ==> OpenGroups(keys, sibs, parent.left, i, parent.depth)
      {
        if |keys[i]| >= parent.depth {
          assert deep;
          var cur: Code := 0;
          if |keys[i]| != parent.depth {
            cur := keys[i][parent.depth] as int + 1;
          }
          assert cur == CodeAt(keys[i], parent.depth);
          if prev > cur {
            error := -3;
            return 0, sibs;
          }
          ghost var before := sibs;
          if cur != prev || sibs == [] {
            if sibs != [] {
              sibs := Closed(sibs, i);
            }
            sibs := sibs + [Node(cur, parent.depth + 1, i, 0)];
          }
          GroupsStep(keys, before, sibs, parent.left, i, parent.depth);
          prev := cur;
        }
        i := i + 1;
      }
      if sibs != [] {
        GroupsWhenClosed(keys, sibs, parent.left, parent.right, parent.depth);
        sibs := Closed(sibs, parent.right);
      }
      n := |sibs|;
    }

    /** Searches a begin whose slots are all free; the array only grows. */
    method FindSlot(sibs: seq<Node>) returns (begin: nat)
      requires |sibs| > 0 && Increasing(sibs) && |used| == |units|
      modifies this`units, this`used, this`nextCheckPos
      ensures |used| == |units| && Padded(old(units), old(used), units, used)
      ensures 1 <= begin && begin + sibs[|sibs|-1].code < |units|
      ensures !used[begin] && FreeSlots(units, sibs, begin)
      ensures old(Clean()) ==> begin == 1
    {
      hide Padded, FreeSlots, AllFree;
      ghost var units0, used0, clean := units, used, Clean();
      NoPadding(units, used);
      var pos := Max(sibs[0].code + 1, nextCheckPos) - 1;
      var first := true;
      if |units| <= pos {
        Resize(pos + 1);
      }
      begin := 0;
      var found := false;
      ghost var bound := Max(pos, |units0| + sibs[0].code);
      while !found
        invariant sibs[0].code <= pos <= bound + 1
        invariant !found ==> pos <= bound
        invariant |used| == |units| && Padded(units0, used0, units, used)
        invariant found ==> 1 <= begin && begin + sibs[|sibs|-1].code < |units| && !used[begin] && FreeSlots(units, sibs, begin)
        invariant clean ==> if found then begin == 1 else pos == sibs[0].code
        decreases bound + 1 - pos
      {
        pos := pos + 1;
        if |units| <= pos {
          ghost var units1, used1 := units, used;
          Resize(pos + 1);
          PaddedTwice(units0, used0, units1, used1, units, used);
        }
        if clean {
          PaddedStaysFree(units0, used0, units, used);
          SlotIsFree(units, used, pos);
        }
        if units[pos].check == 0 {
          if first {
            nextCheckPos := pos;
            first := false;
          }
          begin := pos - sibs[0].code;
          ghost var units1, used1 := units, used;
          found := TryBegin(sibs, begin);
          PaddedTwice(units0, used0, units1, used1, units, used);
          if begin >= |units0| || clean {
            PaddingIsFree(units0, units, used0, used, sibs, begin);
          }
        } else {
          OccupiedIsOld(units0, used0, units, used, pos);
        }
      }
      if * {
        nextCheckPos := pos;
      }
    }

    ghost predicate Clean()
      reads this
    {
      && nextCheckPos == 0
      && AllFree(units, used)
    }

    /** Tries one begin, first growing the array to hold all its slots. */
    method TryBegin(sibs: seq<Node>, begin: nat) returns (found: bool)
      requires |sibs| > 0 && Increasing(sibs) && |used| == |units|
      requires 1 <= begin && begin + sibs[0].code < |units| && units[begin + sibs[0].code].check == 0
      modifies this`units, this`used
      ensures |used| == |units| && Padded(old(units), old(used), units, used)
      ensures begin + sibs[|sibs|-1].code < |units|
      ensures found <==> !used[begin] && FreeSlots(units, sibs, begin)
    {
      var last := sibs[|sibs|-1].code;
      if |units| <= begin + last {
        var newSize: nat :| newSize > begin + last;
        Resize(newSize);
      }
      found := false;
      if !used[begin] {
        found := SlotsFree(sibs, begin);
      }
    }

    method SlotsFree(sibs: seq<Node>, begin: nat) returns (free: bool)
      requires |sibs| > 0 && Increasing(sibs) && begin + sibs[|sibs|-1].code < |units|
      requires units[begin + sibs[0].code].check == 0
      ensures free <==> FreeSlots(units, sibs, begin)
    {
      for i := 1 to |sibs|
        invariant forall j :: 0 <= j < i ==> begin + sibs[j].code < |units| && units[begin + sibs[j].code].check == 0
      {
        assert i < |sibs| - 1 ==> sibs[i].code < sibs[|sibs|-1].code;
        if units[begin + sibs[i].code].check != 0 {
          return false;
        }
      }
      return true;
    }

    /** Takes the slots of a children list for `begin`. */
    method Claim(sibs: seq<Node>, begin: nat)
      requires |sibs| > 0 && Increasing(sibs)
      requires |used| == |units| && begin + sibs[|sibs|-1].code < |units|
      modifies this`units, this`used, this`size
      ensures Claimed(old(units), units, sibs, begin)
      ensures used == old(used)[begin := true]
      ensures size == Max(old(size), begin + sibs[|sibs|-1].code + 1)
    {
      used := used[begin := true];
      size := Max(size, begin + sibs[|sibs|-1].code + 1);
      assert forall j :: 0 <= j < |sibs| - 1 ==> sibs[j].code < sibs[|sibs|-1].code;
      for i := 0 to |sibs|
        invariant |units| == |old(units)|
        invariant used == old(used)[begin := true]
        invariant size == Max(old(size), begin + sibs[|sibs|-1].code + 1)
        invariant forall p :: 0 <= p < |units| ==>
                    units[p] == if CodeAmong(sibs, i, p - begin) then old(units)[p].(check := begin) else old(units)[p]
      {
        var s := begin + sibs[i].code;
        units := units[s := units[s].(check := begin)];
        assert forall c: int :: CodeAmong(sibs, i + 1, c) <==> CodeAmong(sibs, i, c) || c == sibs[i].code;
      }
    }

    /** Records the node `q` at a free begin. */
    method Place(sibs: seq<Node>, begin: nat, ghost q: Word, ghost lo: nat, ghost hi: nat)
      requires Building()
      requires Children(keys, sibs, q, lo, hi) && q !in nodes
      requires 1 <= begin && begin + sibs[|sibs|-1].code < |units| && !used[begin] && FreeSlots(units, sibs, begin)
      modifies this`units, this`used, this`size, this`nodes, this`owner
      ensures Building() && size >= old(size)
      ensures nodes == old(nodes)[q := begin]
      ensures KeepsOccupied(old(units), units) && OwnSlots(units, sibs, begin)
    {
      hide DictOf, ShapeOf, GroupAt, RangeOf, Deep, Bijective, SlotsTaken, SlotsOwned, FreeSlots, Claimed, KeepsOccupied, OwnSlots;
      ghost var ks, vs, sh, u0, us0, sz0, ns, ow := keys, values, shape, units, used, size, nodes, owner;
      Claim(sibs, begin);
      nodes := nodes[q := begin];
      owner := owner[begin := q];
      PlaceChildren(ks, vs, u0, units, us0, sz0, size, ns, ow, sh, q, lo, hi, sibs, begin);
    }

    /** Links the i-th child: a word's end stores its value, a longer path is inserted and stores its begin. */
    method LinkChild(sibs: seq<Node>, i: nat, begin: nat, ghost q: Word, ghost lo: nat, ghost hi: nat)
        returns (stop: bool)
      requires Building() && error <= 0
      requires Children(keys, sibs, q, lo, hi) && i < |sibs| && sibs[i].left < sibs[i].right <= |keys|
      requires q in nodes && nodes[q] == begin >= 1 && OwnSlots(units, sibs, begin)
      requires ChildIsNew(nodes, q, sibs[i].code)
      modifies this
      decreases MaxLen(keys) - |q|, 0
      ensures Building() && SameInput() && error <= 0 && size >= old(size)
      ensures LinkOf(old(units), old(nodes), units, nodes, q, begin, sibs[i].code)
      ensures error == 0 <==> old(error) == 0 && Buildable(keys, values, sibs[i].left, sibs[i].right)
      ensures stop ==> error != 0
      ensures error == 0 ==> Filled(units, nodes, dict, q, sibs[i].code)
      ensures error == 0 ==> NewFilled(old(nodes), nodes, units, dict, shape)
    {
      hide DictOf, ShapeOf, Groups, GroupAt, Placed, Filled, NewFilled, NewBelow, NoneBelow, Grows, KeepsOccupied,
           RangeOf, Buildable, LinkOf, HasCode, IsPath;
      var child, slot := sibs[i], Slot(begin, sibs[i].code);
      ChildRange(keys, sibs, q, lo, hi, i);
      var n, kids := Fetch(child);
      if n == 0 {
        if child.code > 0 {
          UnorderedIsUnbuildable(keys, values, q + [child.code - 1], child.left, child.right);
        }
        ghost var units0 := units;
        if child.code == 0 {
          TerminalBuildable(keys, values, sibs, q, lo, hi, i);
        }
        stop := LinkLeaf(child.left, slot, q);
        PlacedKeys(units, used, size, nodes, owner, shape);
        LeafLinkOf(units0, units, nodes, q, begin, child.code, dict, shape);
      } else {
        stop := false;
        LongerIsBounded(keys, q + [child.code - 1], child.left, child.right);
        LinkPath(kids, child, slot, begin, q);
      }
    }

    /** Stores a key's value in its terminal slot. After an error every remaining child takes this path. */
    method LinkLeaf(left: nat, slot: nat, ghost q: Word) returns (stop: bool)
      requires Building() && error <= 0 && left < |keys| && slot < |units|
      requires error == 0 ==>
                 q in nodes && slot == nodes[q] && q in dict && dict[q] == ValueAt(values, left)
      modifies this`units, this`error
      ensures Building() && error <= 0
      ensures |units| == |old(units)| && forall p :: 0 <= p < |units| ==>
                units[p].check == old(units)[p].check && (p != slot ==> units[p] == old(units)[p])
      ensures stop ==> error != 0
      ensures error == 0 <==> old(error) == 0 && ValueAt(values, left) >= 0
      ensures error == 0 ==> Filled(units, nodes, dict, q, 0)
    {
      hide ShapeOf, DictOf, Placed, Filled, KeepsOccupiedBut;
      var base := -ValueAt(values, left) - 1;
      SetBase(slot, base);
      stop := values.Some? && base >= 0;
      if stop {
        error := -2;
      }
      if error == 0 {
        LeafFilled(units, nodes, dict, q, ValueAt(values, left));
      }
    }

    /** Inserts the node of a longer path and stores its begin. */
    method LinkPath(kids: seq<Node>, child: Node, slot: nat, begin: nat, ghost q: Word)
      requires Building() && error == 0 && child.code > 0
      requires Children(keys, kids, q + [child.code - 1], child.left, child.right)
      requires NoneBelow(nodes, q + [child.code - 1])
      requires q in nodes && nodes[q] == begin >= 1
      requires slot == Slot(begin, child.code) < |units| && units[slot].check == begin
      modifies this
      decreases MaxLen(keys) - |q| - 1, 3
      ensures Building() && SameInput() && error <= 0 && size >= old(size)
      ensures LinkOf(old(units), old(nodes), units, nodes, q, begin, child.code)
      ensures error == 0 <==> Buildable(keys, values, child.left, child.right)
      ensures error == 0 ==> Filled(units, nodes, dict, q, child.code)
      ensures error == 0 ==> NewFilled(old(nodes), nodes, units, dict, shape)
    {
      hide DictOf, ShapeOf, Groups, GroupAt, Bijective, SlotsTaken, SlotsOwned, NewFilled, NoneBelow, Buildable, Deep;
      ghost var path := q + [child.code - 1];
      LongerIsBounded(keys, path, child.left, child.right);
      var h := Insert(kids, path, child.left, child.right);
      ghost var units0 := units;
      SetBase(slot, h);
      if error == 0 {
        NewFilledKept(old(nodes), nodes, units0, units, used, size, owner, dict, shape, q, slot);
      }
    }

    /** Writes the base of an occupied slot. */
    method SetBase(slot: nat, base: int)
      requires Building() && slot < |units|
      modifies this`units
      ensures Building()
      ensures units == old(units)[slot := old(units)[slot].(base := base)]
      ensures KeepsOccupiedBut(old(units), units, slot)
    {
      hide DictOf, ShapeOf, Bijective, SlotsTaken, SlotsOwned;
      PlacedIgnoresBase(units, used, size, nodes, owner, shape, slot, base);
      units := units[slot := units[slot].(base := base)];
    }

    /** Finds free slots for a children list and records its node there. */
    method FindBegin(sibs: seq<Node>, ghost q: Word, ghost lo: nat, ghost hi: nat) returns (begin: nat)
      requires Building() && Children(keys, sibs, q, lo, hi) && NoneBelow(nodes, q)
      modifies this`units, this`used, this`nextCheckPos, this`size, this`nodes, this`owner
      ensures Building() && size >= old(size) && begin >= 1
      ensures nodes == old(nodes)[q := begin]
      ensures Linking(old(units), old(nodes), units, nodes, q, begin, sibs, 0)
      ensures Linked(old(nodes), units, nodes, dict, shape, q, begin, sibs, 0)
      ensures old(Clean()) ==> begin == 1
    {
      hide DictOf, ShapeOf, GroupAt, RangeOf, Deep, Bijective, SlotsTaken, SlotsOwned, FreeSlots, Padded,
           KeepsOccupied, OwnSlots, Linking, Linked;
      ghost var units0, used0, nodes0 := units, used, nodes;
      begin := FindSlot(sibs);
      ghost var unitsP, usedP := units, used;
      PlacedSurvivesPadding(units0, units, used0, used, size, nodes, owner, shape);
      Place(sibs, begin, q, lo, hi);
      LinkingStarts(units0, used0, unitsP, usedP, nodes0, units, nodes, dict, shape, q, begin, sibs);
    }

    /** Links the children one by one, stopping at a negative value. */
    method LinkAll(sibs: seq<Node>, begin: nat, ghost q: Word, ghost lo: nat, ghost hi: nat,
                   ghost units0: seq<Unit>, ghost nodes0: map<Word, nat>) returns (stop: bool)
      requires Building() && error == 0 && begin >= 1
      requires Children(keys, sibs, q, lo, hi)
      requires Linking(units0, nodes0, units, nodes, q, begin, sibs, 0)
      requires Linked(nodes0, units, nodes, dict, shape, q, begin, sibs, 0)
      modifies this
      decreases MaxLen(keys) - |q|, 1
      ensures Building() && SameInput() && error <= 0 && size >= old(size)
      ensures KeepsOccupied(units0, units) && Grows(nodes0, nodes) && NewBelow(nodes0, nodes, q)
      ensures q in nodes && nodes[q] == begin
      ensures stop ==> error != 0
      ensures error == 0 <==> Buildable(keys, values, lo, hi)
      ensures error == 0 ==> Linked(nodes0, units, nodes, dict, shape, q, begin, sibs, |sibs|)
    {
      hide DictOf, ShapeOf, Groups, GroupAt, RangeOf, Deep, Bijective, SlotsTaken, SlotsOwned, Linking, Linked, LinkOf,
           Filled, NewFilled, NewBelow, NoneBelow, Grows, KeepsOccupied, OwnSlots, Buildable, CodesOf;
      GroupsBounded(keys, sibs, q, lo, hi);
      BuildableByGroups(keys, values, sibs, q, lo, hi, |sibs|);
      var i := 0;
      while i < |sibs|
        invariant 0 <= i <= |sibs|
        invariant Building() && SameInput() && error <= 0 && size >= old(size)
        invariant Linking(units0, nodes0, units, nodes, q, begin, sibs, i)
        invariant error == 0 <==> forall j :: 0 <= j < i ==> Buildable(keys, values, sibs[j].left, sibs[j].right)
        invariant error == 0 ==> Linked(nodes0, units, nodes, dict, shape, q, begin, sibs, i)
      {
        ghost var units1, nodes1, used1, size1, owner1 := units, nodes, used, size, owner;
        LinkingKeeps(units0, nodes0, units, nodes, q, begin, sibs, i);
        stop := LinkChild(sibs, i, begin, q, lo, hi);
        LinkingNext(units0, nodes0, units1, nodes1, units, nodes, q, begin, sibs, i);
        if stop {
          LinkingKeeps(units0, nodes0, units, nodes, q, begin, sibs, i + 1);
          return true;
        }
        if error == 0 {
          LinkedNext(units0, nodes0, units1, nodes1, units, nodes, used1, size1, owner1, dict, shape, q, begin, sibs, i);
        }
        i := i + 1;
      }
      LinkingKeeps(units0, nodes0, units, nodes, q, begin, sibs, i);
      return false;
    }

    /** Places a children list, links each child in turn, and returns the begin it chose. */
    method Insert(sibs: seq<Node>, ghost q: Word, ghost lo: nat, ghost hi: nat) returns (begin: nat)
      requires Building() && error <= 0 && lo <= hi <= |keys|
      requires error == 0 ==> Children(keys, sibs, q, lo, hi) && NoneBelow(nodes, q)
      modifies this
      decreases MaxLen(keys) - |q|, 2
      ensures Building() && SameInput() && error <= 0 && size >= old(size)
      ensures KeepsOccupied(old(units), units) && Grows(old(nodes), nodes) && NewBelow(old(nodes), nodes, q)
      ensures old(error) < 0 ==> begin == 0 && error == old(error)
      ensures error == 0 <==> old(error) == 0 && Buildable(keys, values, lo, hi)
      ensures error == 0 ==> q in nodes && nodes[q] == begin
      ensures error == 0 ==> NewFilled(old(nodes), nodes, units, dict, shape)
      ensures old(error) == 0 && old(Clean()) ==> q in nodes && nodes[q] == 1
    {
      hide DictOf, ShapeOf, Groups, GroupAt, RangeOf, Deep, Placed, Linking, Linked, Filled, NewFilled, NewBelow, NoneBelow,
           Grows, KeepsOccupied, OwnSlots, Buildable, CodesOf, AllFree, IsPath, HasCode, Children;
      if error < 0 {
        NothingMoved(units, nodes, q);
        return 0;
      }
      ghost var units0, nodes0 := units, nodes;
      begin := FindBegin(sibs, q, lo, hi);
      var stop := LinkAll(sibs, begin, q, lo, hi, units0, nodes0);
      if stop {
        return 0;
      }
      if error == 0 {
        AllCodesMatch(keys, values, sibs, q, lo, hi);
        PlacedKeys(units, used, size, nodes, owner, shape);
        NewFilledWithNode(nodes0, nodes, units, dict, shape, q, begin, sibs);
      }
    }

    /** Builds the index of a key list with optional values; 0 means success. */
    method Build(ks: seq<Word>, vs: Option<seq<int>>) returns (r: int)
      requires ValuesFit(ks, vs) && error <= 0
      requires units == [] && used == [] && size == 0
      modifies this
      ensures ks == [] ==> r == 0 && unchanged(this)
      ensures ks != [] ==> r == error <= 0
      ensures ks != [] ==> (r == 0 <==> old(error) == 0 && Buildable(ks, vs, 0, |ks|))
      ensures ks != [] && r == 0 ==> Represents(DictOf(ks, vs))
      ensures ks != [] && r == 0 ==> HoldsFirstValues(ks, vs, DictOf(ks, vs))
    {
      if ks == [] {
        return 0;
      }
      DictHoldsFirstValues(ks, vs);
      hide DictOf, Building, Buildable, Clean, Represents, NewFilled, HoldsFirstValues;
      Prepare(ks, vs);
      PackRoot();
      AddMargin();
      return error;
    }

    /** What is built is found: a listed key has the value of its first position, any other text none. */
    method BuildAndFind(ks: seq<Word>, vs: Option<seq<int>>, w: Word) returns (built: int, found: int)
      requires ValuesFit(ks, vs) && error == 0 && units == [] && used == [] && size == 0
      requires 0 !in w
      modifies this
      ensures ks != [] && built == 0 ==> IsAnswer(ks, vs, w, found)
    {
      hide Represents, DictOf, Buildable, IsAnswer, HoldsFirstValues, Lookup, IsPath;
      built := Build(ks, vs);
      found := -2;
      if ks != [] && built == 0 {
        LookupAnswers(ks, vs, DictOf(ks, vs), w);
        found := Find(w, DictOf(ks, vs));
      }
    }

    /** Traverses a whole text from the root. */
    method Find(w: Word, ghost d: map<Word, int>) returns (found: int)
      requires Represents(d) && 0 !in w
      ensures found == Lookup(d, w)
    {
      hide Packed, Lookup, IsPath;
      RootNode(d);
      var nodePos, keyPos;
      found, nodePos, keyPos := Traverse(w, 0, 0, 0, d, []);
      assert [] + w[0..|w|] == w;
    }

    /** Allocates the array and links slot 0 to the begin the root will get. */
    method Prepare(ks: seq<Word>, vs: Option<seq<int>>)
      requires ValuesFit(ks, vs) && ks != [] && units == [] && used == []  && size == 0
      modifies this
      ensures Building() && keys == ks && values == vs && dict == DictOf(ks, vs) && error == old(error)
      ensures nodes == map[] && Clean() && |units| > 0 && units[0].base == 1
    {
      hide DictOf, ShapeOf, Placed, AllFree, Padded;
      keys, values := ks, vs;
      Resize(|ks| * 64);
      EmptyIsFree(units, used, 1);
      units := units[0 := units[0].(base := 1)];
      nextCheckPos := 0;
      nodes, owner, dict, shape := map[], map[], DictOf(ks, vs), ShapeOf(DictOf(ks, vs));
      EmptyIsPlaced(units, used, shape);
    }

    /** Extends the array so that any byte after any begin can be looked up. */
    method AddMargin()
      requires Building() && |units| > 0 && units[0].base == 1
      requires error == 0 ==> [] in nodes && nodes[[]] == 1 && NewFilled(map[], nodes, units, dict, shape)
      modifies this`size, this`units, this`used
      ensures error == 0 ==> Represents(dict)
    {
      hide DictOf, ShapeOf, Placed, Packed, Padded, NewFilled;
      ghost var units0, used0, size0, nodes0, owner0, dict0, shape0 := units, used, size, nodes, owner, dict, shape;
      size := size + 257;
      PlacedLengths(units0, used0, size0, nodes0, owner0, shape0);
      if size >= |units| {
        Resize(size);
        PaddedUnits(units0, used0, units, used);
      }
      if error == 0 {
        PackedAtRoot(units0, used0, size0, nodes0, owner0, dict0, shape0, units[..size]);
      }
      used := [];
    }

    /** Fetches and inserts the root's children. */
    method PackRoot()
      requires Building() && error <= 0 && keys != [] && nodes == map[] && Clean() && |units| > 0
      modifies this
      ensures Building() && SameInput() && error <= 0
      ensures error == 0 <==> old(error) == 0 && Buildable(keys, values, 0, |keys|)
      ensures |units| > 0 && units[0] == old(units)[0]
      ensures error == 0 ==> [] in nodes && nodes[[]] == 1 && NewFilled(map[], nodes, units, dict, shape)
    {
      hide Placed, DictOf, ShapeOf, Groups;
      var n, sibs := Fetch(Node(0, 0, 0, |keys|));
      assert RangeOf(keys, [], 0, |keys|);
      UnorderedIsUnbuildable(keys, values, [], 0, |keys|);
      var begin := Insert(sibs, [], 0, |keys|);
    }

    /** Forgets the array, but not an earlier error. */
    method Clear()
      modifies this
      ensures units == [] && used == [] && size == 0 && error == old(error)
    {
      units, used, size := [], [], 0;
    }

    /** The units a save writes: the first `size` of them, and nothing when there are none. */
    method Save(ghost d: map<Word, int>) returns (saved: Option<seq<Unit>>)
      requires size <= |units|
      ensures saved == if size == 0 then None else Some(units[..size])
      ensures Represents(d) ==> saved.Some? && IsTrie(saved.value, d)
    {
      if Represents(d) {
        HasRoot(d);
      }
      saved := if size == 0 then None else Some(units[..size]);
    }

    lemma HasRoot(d: map<Word, int>)
      requires Represents(d)
      ensures size > 0
    {
      RootNode(d);
    }

    /** Loads saved units; they suffice for every search. */
    method Open(saved: seq<Unit>, ghost d: map<Word, int>)
      requires IsTrie(saved, d)
      modifies this
      ensures Represents(d) && units == saved
    {
      hide Packed;
      units, used, size := saved, [], |saved|;
      ghost var ns :| Packed(saved, ns, d);
      nodes := ns;
      assert units[..size] == saved;
    }

    /** A dictionary that is saved and opened again, elsewhere, is the same dictionary. */
    method Reopened(ghost d: map<Word, int>) returns (copy: DoubleArray)
      requires Represents(d)
      ensures fresh(copy) && copy.Represents(d) && copy.units == units[..size]
    {
      var saved := Save(d);
      copy := new DoubleArray();
      copy.Open(saved.value, d);
    }

    /** Reads one unit. No search may look past `size`, which is all that a save keeps. */
    function At(p: nat): Unit
      requires p < size <= |units|
      reads this
    {
      units[p]
    }

    /** `pos` is the position a search has reached after the path `q`. */
    ghost predicate AtNode(pos: nat, q: Word)
      requires size <= |units|
      reads this
    {
      pos < size && q in nodes && units[pos].base == nodes[q]
    }

    lemma RootNode(d: map<Word, int>)
      requires Represents(d)
      ensures AtNode(0, [])
    {
      RootIsPlaced(units[..size], nodes, d);
    }

    lemma Step(d: map<Word, int>, q: Word, x: Byte)
      requires Represents(d) && q in nodes
      ensures nodes[q] + x + 1 < size && nodes[q] >= 1
      ensures units[nodes[q] + x + 1].check == nodes[q] <==> IsPath(d, q + [x])
      ensures IsPath(d, q + [x]) ==> AtNode(nodes[q] + x + 1, q + [x])
    {
      StepFollowsPath(units[..size], nodes, d, q, x);
    }

    lemma End(d: map<Word, int>, q: Word)
      requires Represents(d) && q in nodes
      ensures 1 <= nodes[q] < size && IsPath(d, q)
      ensures units[nodes[q]].check == nodes[q] && units[nodes[q]].base < 0 <==> q in d
      ensures q in d ==> -units[nodes[q]].base - 1 == d[q] >= 0
    {
      EndHoldsValue(units[..size], nodes, d, q);
    }

    /** Follows `key` from a position reached before, and can be resumed from where it stops. */
    method Traverse(key: Word, nodePos: nat, keyPos: nat, len: nat, ghost d: map<Word, int>, ghost q: Word)
        returns (r: int, nodePos': nat, keyPos': nat)
      requires Represents(d) && AtNode(nodePos, q)
      requires len <= |key| && (len == 0 ==> 0 !in key)
      ensures
        var n := if len == 0 then |key| else len;
        && r == Lookup(d, q + if keyPos <= n then key[keyPos..n] else [])
        && keyPos <= keyPos' <= Max(keyPos, n)
        && AtNode(nodePos', q + if keyPos <= n then key[keyPos..keyPos'] else [])
        && (r != -2 ==> keyPos' == Max(keyPos, n))
        && (r == -2 ==> keyPos' < n && !IsPath(d, q + key[keyPos..keyPos'+1]))
    {
      hide Packed;
      var n := if len == 0 then |key| else len;
      nodePos', keyPos' := nodePos, keyPos;
      var b := At(nodePos).base;
      ghost var path := q;
      assert q + [] == q;
      assert keyPos <= n ==> q + key[keyPos..keyPos] == q;
      while keyPos' < n
        invariant keyPos <= keyPos' <= Max(keyPos, n)
        invariant path == q + if keyPos <= n then key[keyPos..keyPos'] else []
        invariant AtNode(nodePos', path) && b == nodes[path]
      {
        Step(d, path, key[keyPos']);
        assert path + [key[keyPos']] == q + key[keyPos..keyPos'+1];
        var p := b + key[keyPos'] + 1;
        if b == At(p).check {
          nodePos' := p;
          b := At(p).base;
          path := path + [key[keyPos']];
        } else {
          SliceIsPrefix(q, key, keyPos, keyPos' + 1, n);
          NotAPath(d, q + key[keyPos..keyPos'+1], q + key[keyPos..n]);
          return -2, nodePos', keyPos';
        }
        keyPos' := keyPos' + 1;
      }
      End(d, path);
      var m := At(b).base;
      if b == At(b).check && m < 0 {
        return -m - 1, nodePos', keyPos';
      }
      return -1, nodePos', keyPos';
    }

    /** A mere path is reported by its begin, negated; its value is read off that slot and means nothing. */
    ghost predicate IsPathResult(w: Word, n: nat, r: ResultPair)
      reads this
    {
      && w in nodes && nodes[w] < |units|
      && r == ResultPair(-units[nodes[w]].base - 1, n, -(nodes[w] as int)) && r.pos < 0
    }

    /** The whole key at once, into a result pair: a positive position exactly for the words. */
    method ExactMatchSearch(key: Word, len: nat, nodePos: nat, ghost d: map<Word, int>, ghost q: Word)
        returns (r: ResultPair)
      requires Represents(d) && AtNode(nodePos, q) && len <= |key| && (len == 0 ==> 0 !in key)
      ensures
        var n := if len == 0 then |key| else len;
        var w := q + key[..n];
        && (w in d ==> w in nodes && r == ResultPair(d[w], n, nodes[w]) && r.pos > 0)
        && (w !in d && IsPath(d, w) ==> IsPathResult(w, n, r))
        && (!IsPath(d, w) ==> r == ResultPair(-1, 0, 0))
    {
      hide Packed;
      var n := if len == 0 then |key| else len;
      r := ResultPair(-1, 0, 0);
      var b := At(nodePos).base;
      ghost var path := q;
      assert q + key[..0] == q;
      for i := 0 to n
        invariant path == q + key[..i]
        invariant path in nodes && b == nodes[path]
      {
        Step(d, path, key[i]);
        assert path + [key[i]] == q + key[..i+1];
        var p := b + key[i] + 1;
        if b == At(p).check {
          b := At(p).base;
        } else {
          SliceIsPrefix(q, key, 0, i + 1, n);
          NotAPath(d, q + key[..i+1], q + key[..n]);
          return;
        }
        path := path + [key[i]];
      }
      End(d, path);
      var m := At(b).base;
      if b == At(b).check && m < 0 {
        r := ResultPair(-m - 1, n, b);
      } else {
        r := ResultPair(-m - 1, n, -b);
      }
    }

    /** `r` reports the word that ends `l` bytes into the key. */
    ghost predicate IsHit(d: map<Word, int>, q: Word, key: Word, l: nat, r: ResultPair)
      requires l <= |key|
      reads this
    {
      var w := q + key[..l];
      w in d && w in nodes && r == ResultPair(d[w], l, nodes[w]) && r.pos > 0
    }

    /** The results hold, as far as the buffer reaches, one hit for each word length below `m`. */
    ghost predicate Hits(rs: seq<ResultPair>, resultLen: nat, d: map<Word, int>, q: Word, key: Word, m: nat)
      requires resultLen <= |rs| && m <= |key| + 1
      reads this
    {
      var lens := WordLengths(d, q, key, m);
      forall j :: 0 <= j < |lens| && j < resultLen ==> IsHit(d, q, key, lens[j], rs[j])
    }

    /**
     * Reports the words that are prefixes of the key into the first `resultLen` places of a buffer, and counts
     * them all. A key that is only a path adds one last result with a negative position.
     */
    method CommonPrefixSearch(key: Word, result: array<ResultPair>, resultLen: nat, len: nat, nodePos: nat,
                              ghost d: map<Word, int>, ghost q: Word)
        returns (num: nat)
      requires Represents(d) && AtNode(nodePos, q) && resultLen <= result.Length
      requires len <= |key| && (len == 0 ==> 0 !in key)
      modifies result
      ensures
        var n := if len == 0 then |key| else len;
        var words, w := |WordLengths(d, q, key, n + 1)|, q + key[..n];
        && num == words + (if w !in d && IsPath(d, w) then 1 else 0)
        && Hits(result[..], resultLen, d, q, key, n + 1)
        && (words < num && words < resultLen ==>
              IsPathResult(w, n, result[words]))
      ensures SameFrom(old(result[..]), result[..], if num < resultLen then num else resultLen)
    {
      hide Packed, Hits, IsHit, WordLengths, IsPath;
      var n := if len == 0 then |key| else len;
      num := 0;
      var b := At(nodePos).base;
      ghost var path := q;
      assert q + key[..0] == q;
      NoHits(result[..], resultLen, d, q, key);
      for i := 0 to n
        invariant path == q + key[..i] && path in nodes && b == nodes[path]
        invariant num == |WordLengths(d, q, key, i)| && Hits(result[..], resultLen, d, q, key, i)
        invariant SameFrom(old(result[..]), result[..], if num < resultLen then num else resultLen)
      {
        num := Report(result, resultLen, num, i, b, d, q, key, path);
        Step(d, path, key[i]);
        assert path + [key[i]] == q + key[..i+1];
        var p := b + key[i] + 1;
        if b == At(p).check {
          b := At(p).base;
        } else {
          WordLengthsStop(d, q, key, i + 1, n + 1);
          SameHits(result[..], resultLen, d, q, key, i + 1, n + 1);
          SliceIsPrefix(q, key, 0, i + 1, n);
          NotAPath(d, q + key[..i+1], q + key[..n]);
          return;
        }
        path := path + [key[i]];
      }
      var before := num;
      num := Report(result, resultLen, num, n, b, d, q, key, path);
      End(d, path);
      if num == before {
        if num < resultLen {
          HitsKept(result[..], resultLen, d, q, key, n + 1, num, ResultPair(-At(b).base - 1, n, -b));
          result[num] := ResultPair(-At(b).base - 1, n, -b);
        }
        num := num + 1;
      }
    }

    lemma NoHits(rs: seq<ResultPair>, resultLen: nat, d: map<Word, int>, q: Word, key: Word)
      requires resultLen <= |rs|
      ensures WordLengths(d, q, key, 0) == [] && Hits(rs, resultLen, d, q, key, 0)
    {
    }

    lemma SameHits(rs: seq<ResultPair>, resultLen: nat, d: map<Word, int>, q: Word, key: Word, m: nat, m': nat)
      requires resultLen <= |rs| && m <= |key| + 1 && m' <= |key| + 1
      requires WordLengths(d, q, key, m') == WordLengths(d, q, key, m) && Hits(rs, resultLen, d, q, key, m)
      ensures Hits(rs, resultLen, d, q, key, m')
    {
    }

    lemma HitsKept(rs: seq<ResultPair>, resultLen: nat, d: map<Word, int>, q: Word, key: Word, m: nat, num: nat, r: ResultPair)
      requires resultLen <= |rs| && m <= |key| + 1 && num == |WordLengths(d, q, key, m)| < resultLen
      requires Hits(rs, resultLen, d, q, key, m)
      ensures Hits(rs[num := r], resultLen, d, q, key, m)
    {
    }

    lemma OneMoreHit(rs: seq<ResultPair>, resultLen: nat, d: map<Word, int>, q: Word, key: Word, i: nat)
      requires resultLen <= |rs| && i <= |key| && Hits(rs, resultLen, d, q, key, i) && q + key[..i] in d
      requires |WordLengths(d, q, key, i)| < resultLen ==> IsHit(d, q, key, i, rs[|WordLengths(d, q, key, i)|])
      ensures Hits(rs, resultLen, d, q, key, i + 1)
    {
      var lens, lens' := WordLengths(d, q, key, i), WordLengths(d, q, key, i + 1);
      forall j | 0 <= j < |lens'| && j < resultLen ensures IsHit(d, q, key, lens'[j], rs[j]) {
        if j < |lens| {
          assert IsHit(d, q, key, lens[j], rs[j]);
        }
      }
    }

    /** Adds a result when the path reached is a word. */
    method Report(result: array<ResultPair>, resultLen: nat, num: nat, i: nat, b: int,
                  ghost d: map<Word, int>, ghost q: Word, ghost key: Word, ghost path: Word)
        returns (num': nat)
      requires Represents(d) && resultLen <= result.Length && i <= |key|
      requires path == q + key[..i] && path in nodes && b == nodes[path]
      requires num == |WordLengths(d, q, key, i)| && Hits(result[..], resultLen, d, q, key, i)
      modifies result
      ensures path in d <==> num' != num
      ensures num <= num' == |WordLengths(d, q, key, i + 1)| && Hits(result[..], resultLen, d, q, key, i + 1)
      ensures result[..] == old(result[..])
              || (num < num' && num < resultLen && result[..] == old(result[..])[num := result[num]])
    {
      hide Packed, Hits;
      End(d, path);
      num' := num;
      var m := At(b).base;
      if b == At(b).check && m < 0 {
        var r := ResultPair(-m - 1, i, b);
        if num < resultLen {
          HitsKept(result[..], resultLen, d, q, key, i, num, r);
          result[num] := r;
          assert result[..] == old(result[..])[num := r];
        }
        OneMoreHit(result[..], resultLen, d, q, key, i);
        num' := num + 1;
      } else {
        SameHits(result[..], resultLen, d, q, key, i, i + 1);
      }
    }
  }
}
