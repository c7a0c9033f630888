/**
 A model of `myInstanceOf(left, right)`: a hand-written version of the
 prototype-chain walk behind JavaScript's `instanceof` operator (the chain
 walking steps of OrdinaryHasInstance, section 7.3.19 of ECMA-262, 6th edition).

 The object world is a heap that maps each object identity to the value of its
 [[Prototype]] internal slot (`Object.getPrototypeOf`). The search starts at
 the immediate prototype of `left` and follows one link per iteration until it
 either meets `right.prototype` (by identity) or reaches `null`.
 */
module PrototypeChain {

  /** The identity of a JavaScript object (its address). */
  type Obj = nat

  /** The values that take part in the walk: `null`, `undefined` and object references. */
  datatype Value = Null | Undefined | Object(ref: Obj)

  /** Each object's [[Prototype]] slot, as `Object.getPrototypeOf` returns it. */
  type Heap = map<Obj, Value>

  /** `v` is something `Object.getPrototypeOf` can return in `heap`: null or an object of the heap. */
  predicate IsProto(heap: Heap, v: Value)
  {
    v.Null? || (v.Object? && v.ref in heap)
  }

  /** Every prototype link stays inside the heap. */
  predicate Closed(heap: Heap)
  {
    forall o :: o in heap ==> IsProto(heap, heap[o])
  }

  /**
   The chains are acyclic: `depth` strictly decreases along every prototype
   link, so every cyclic heap is excluded. Ordinary objects cannot form a cycle
   (`Object.setPrototypeOf` refuses one); only proxies can. On such a chain
   `myInstanceOf` has no cycle detection: it returns `true` if it meets
   `right.prototype` first, and otherwise never returns.
   */
  ghost predicate WellFormed(heap: Heap, depth: map<Obj, nat>)
  {
    && Closed(heap)
    && (forall o :: o in heap ==> o in depth)
    && (forall o :: o in heap && heap[o].Object? ==> heap[o].ref in depth && depth[heap[o].ref] < depth[o])
  }

  /** The termination measure of the walk: how far the cursor is from `null`, at most. */
  function Rank(depth: map<Obj, nat>, cursor: Value): nat
    requires cursor.Object? ==> cursor.ref in depth
  {
    if cursor.Object? then depth[cursor.ref] + 1 else 0
  }

  /** `Object.getPrototypeOf` applied `k` times, starting from `v`; `null` stays `null`. */
  function Walk(heap: Heap, v: Value, k: nat): (w: Value)
    requires Closed(heap) && IsProto(heap, v)
    ensures IsProto(heap, w)
    ensures v.Null? ==> w.Null?
    decreases k
  {
    if k == 0 || !v.Object? then v else Walk(heap, heap[v.ref], k - 1)
  }

  /**
   The objects the walk visits from `cursor` on, nearest first: `cursor` itself
   (when it is an object), its prototype, and so on up to the object whose
   prototype is `null`.
   */
  ghost function ChainFrom(heap: Heap, depth: map<Obj, nat>, cursor: Value): (chain: seq<Obj>)
    requires WellFormed(heap, depth) && IsProto(heap, cursor)
    ensures |chain| <= Rank(depth, cursor)
    ensures forall x :: x in chain ==> x in heap && x in depth && depth[x] < Rank(depth, cursor)
    decreases Rank(depth, cursor)
  {
    if cursor.Object? then [cursor.ref] + ChainFrom(heap, depth, heap[cursor.ref]) else []
  }

  /** The prototype chain strictly above `o`: everything `myInstanceOf(o, _)` compares with. */
  ghost function Ancestors(heap: Heap, depth: map<Obj, nat>, o: Obj): (chain: seq<Obj>)
    requires WellFormed(heap, depth) && o in heap
    ensures |chain| <= depth[o]
    ensures o !in chain
  {
    ChainFrom(heap, depth, heap[o])
  }

  /**
   What the loop returns when its cursor is `cursor`: `false` once the cursor
   is falsy (`null`), `true` once it is identical to `prototype`, and otherwise
   whatever it returns one link further up.
   */
  ghost function Search(heap: Heap, depth: map<Obj, nat>, cursor: Value, prototype: Value): (found: bool)
    requires WellFormed(heap, depth) && IsProto(heap, cursor)
    ensures found ==> prototype.Object? && prototype.ref in heap && depth[prototype.ref] < Rank(depth, cursor)
    decreases Rank(depth, cursor)
  {
    if !cursor.Object? then false
    else if cursor == prototype then true
    else Search(heap, depth, heap[cursor.ref], prototype)
  }

  /** How many iterations of the loop (each starting with the null check) run from `cursor` on. */
  ghost function Checks(heap: Heap, depth: map<Obj, nat>, cursor: Value, prototype: Value): (n: nat)
    requires WellFormed(heap, depth) && IsProto(heap, cursor)
    ensures 1 <= n <= |ChainFrom(heap, depth, cursor)| + 1
    decreases Rank(depth, cursor)
  {
    if !cursor.Object? || cursor == prototype then 1
    else 1 + Checks(heap, depth, heap[cursor.ref], prototype)
  }

  /**
   `myInstanceOf(left, right)`, with `right` reduced to the value of its
   `prototype` property. The ghost `checks` counts the loop's iterations.
   */
  method MyInstanceOf(heap: Heap, ghost depth: map<Obj, nat>, left: Obj, prototype: Value)
    returns (r: bool, ghost checks: nat)
    requires WellFormed(heap, depth) && left in heap
    ensures r == Search(heap, depth, heap[left], prototype)
    ensures r <==> prototype.Object? && prototype.ref in Ancestors(heap, depth, left)
    ensures checks == Checks(heap, depth, heap[left], prototype)
    ensures checks <= depth[left] + 1
  {
    SearchFindsMember(heap, depth, heap[left], prototype);
    var proto := heap[left];
    checks := 0;
    while true
      invariant IsProto(heap, proto)
      invariant Search(heap, depth, proto, prototype) == Search(heap, depth, heap[left], prototype)
      invariant checks + Checks(heap, depth, proto, prototype) == Checks(heap, depth, heap[left], prototype)
      decreases Rank(depth, proto)
    {
      checks := checks + 1;
      if !proto.Object? {
        r := false;
        return;
      }
      if proto == prototype {
        r := true;
        return;
      }
      proto := heap[proto.ref];
    }
  }

  /** The walk answers `true` exactly when `prototype` is one of the objects it visits. */
  lemma {:induction false} SearchFindsMember(heap: Heap, depth: map<Obj, nat>, cursor: Value, prototype: Value)
    requires WellFormed(heap, depth) && IsProto(heap, cursor)
    ensures Search(heap, depth, cursor, prototype)
            <==> prototype.Object? && prototype.ref in ChainFrom(heap, depth, cursor)
    decreases Rank(depth, cursor)
  {
    if cursor.Object? && cursor != prototype {
      SearchFindsMember(heap, depth, heap[cursor.ref], prototype);
    }
  }

  /**
   The iteration count: on a hit the loop stops at the FIRST occurrence of
   `prototype` in the chain; on a miss it runs once per object plus once for
   the final null check.
   */
  lemma {:induction false} ChecksStopAtFirstMatch(heap: Heap, depth: map<Obj, nat>, cursor: Value, prototype: Value)
    requires WellFormed(heap, depth) && IsProto(heap, cursor)
    ensures var chain, n := ChainFrom(heap, depth, cursor), Checks(heap, depth, cursor, prototype);
            if Search(heap, depth, cursor, prototype) then
              n <= |chain| && Object(chain[n - 1]) == prototype
              && forall j :: 0 <= j < n - 1 ==> Object(chain[j]) != prototype
            else
              n == |chain| + 1 && forall j :: 0 <= j < |chain| ==> Object(chain[j]) != prototype
    decreases Rank(depth, cursor)
  {
    if cursor.Object? && cursor != prototype {
      var next := heap[cursor.ref];
      ChecksStopAtFirstMatch(heap, depth, next, prototype);
      var chain := ChainFrom(heap, depth, cursor);
      assert chain == [cursor.ref] + ChainFrom(heap, depth, next);
    }
  }

  /**
   When `right.prototype` is not an object (null, or a constructor without a
   `prototype`), nothing on the chain is identical to it: the null check fires
   first at the end of the chain and the answer is always `false`.
   */
  lemma {:induction false} NonObjectPrototypeNeverMatches(heap: Heap, depth: map<Obj, nat>, cursor: Value, prototype: Value)
    requires WellFormed(heap, depth) && IsProto(heap, cursor)
    requires !prototype.Object?
    ensures !Search(heap, depth, cursor, prototype)
    ensures Checks(heap, depth, cursor, prototype) == |ChainFrom(heap, depth, cursor)| + 1
    decreases Rank(depth, cursor)
  {
    if cursor.Object? {
      NonObjectPrototypeNeverMatches(heap, depth, heap[cursor.ref], prototype);
    }
  }

  /**
   The first iteration: when `left`'s prototype is null the answer is `false`
   after one check; when it is `right.prototype` itself the answer is `true`
   after one check.
   */
  lemma FirstIteration(heap: Heap, depth: map<Obj, nat>, left: Obj, prototype: Value)
    requires WellFormed(heap, depth) && left in heap
    ensures heap[left].Null? ==>
              !Search(heap, depth, heap[left], prototype) && Checks(heap, depth, heap[left], prototype) == 1
    ensures heap[left].Object? && heap[left] == prototype ==>
              Search(heap, depth, heap[left], prototype) && Checks(heap, depth, heap[left], prototype) == 1
  {
  }

  /**
   `left` itself is never compared: on an acyclic heap `myInstanceOf(o, F)` is
   `false` when `F.prototype` is `o`.
   */
  lemma SelfIsNotCompared(heap: Heap, depth: map<Obj, nat>, left: Obj)
    requires WellFormed(heap, depth) && left in heap
    ensures !Search(heap, depth, heap[left], Object(left))
  {
    // A `true` answer from `Search` would put `left` strictly below its own depth.
  }

  /** The i-th object of the chain is what `i` more applications of `Object.getPrototypeOf` give. */
  lemma {:induction false} ChainIsWalk(heap: Heap, depth: map<Obj, nat>, cursor: Value, i: nat)
    requires WellFormed(heap, depth) && IsProto(heap, cursor)
    ensures i < |ChainFrom(heap, depth, cursor)| ==> Walk(heap, cursor, i) == Object(ChainFrom(heap, depth, cursor)[i])
    ensures i >= |ChainFrom(heap, depth, cursor)| ==> Walk(heap, cursor, i) == Null
    decreases i
  {
    if i > 0 && cursor.Object? {
      ChainIsWalk(heap, depth, heap[cursor.ref], i - 1);
    }
  }

  /**
   `myInstanceOf(left, F)` is `true` exactly when `F.prototype` is reached from
   `left` by one or more `Object.getPrototypeOf` steps.
   */
  lemma InstanceOfIffReachable(heap: Heap, depth: map<Obj, nat>, left: Obj, target: Obj)
    requires WellFormed(heap, depth) && left in heap
    ensures Search(heap, depth, heap[left], Object(target))
            <==> exists k: nat :: 1 <= k && Walk(heap, Object(left), k) == Object(target)
  {
    var chain := ChainFrom(heap, depth, heap[left]);
    SearchFindsMember(heap, depth, heap[left], Object(target));
    if Search(heap, depth, heap[left], Object(target)) {
      assert target in chain;
      var i :| 0 <= i < |chain| && chain[i] == target;
      ChainIsWalk(heap, depth, heap[left], i);
      var k: nat := i + 1;
      assert Walk(heap, Object(left), k) == Walk(heap, heap[left], i);
      assert 1 <= k && Walk(heap, Object(left), k) == Object(target);
    } else {
      forall k: nat | 1 <= k
        ensures Walk(heap, Object(left), k) != Object(target)
      {
        ChainIsWalk(heap, depth, heap[left], k - 1);
        assert Walk(heap, Object(left), k) == Walk(heap, heap[left], k - 1);
      }
    }
  }

  /** Walking `m` steps and then `n` more is walking `m + n` steps. */
  lemma {:induction false} WalkAdds(heap: Heap, v: Value, m: nat, n: nat)
    requires Closed(heap) && IsProto(heap, v)
    ensures Walk(heap, v, m + n) == Walk(heap, Walk(heap, v, m), n)
    decreases m
  {
    if m > 0 && v.Object? {
      WalkAdds(heap, heap[v.ref], m - 1, n);
    }
  }

  /**
   Inheritance is transitive: if `a` is on `left`'s chain and `b` is on `a`'s
   chain, then `b` is on `left`'s chain.
   */
  lemma InstanceOfTransitive(heap: Heap, depth: map<Obj, nat>, left: Obj, a: Obj, b: Obj)
    requires WellFormed(heap, depth) && left in heap
    requires Search(heap, depth, heap[left], Object(a))
    requires a in heap && Search(heap, depth, heap[a], Object(b))
    ensures Search(heap, depth, heap[left], Object(b))
  {
    InstanceOfIffReachable(heap, depth, left, a);
    InstanceOfIffReachable(heap, depth, a, b);
    var k1: nat :| 1 <= k1 && Walk(heap, Object(left), k1) == Object(a);
    var k2: nat :| 1 <= k2 && Walk(heap, Object(a), k2) == Object(b);
    WalkAdds(heap, Object(left), k1, k2);
    InstanceOfIffReachable(heap, depth, left, b);
    assert Walk(heap, Object(left), k1 + k2) == Object(b);
  }
}
