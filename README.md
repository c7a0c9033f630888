# Prototype-chain search (`myInstanceOf`)

This project models `myInstanceOf(left, right)` from `docs/_mds/test.js`. The function
is a hand-written version of the prototype-chain walk behind JavaScript's `instanceof`
operator. It covers the chain-walking steps of OrdinaryHasInstance (section 7.3.19 of
ECMA-262, 6th edition). The function starts at `left`'s immediate prototype and follows
`Object.getPrototypeOf` one link at a time. It returns `false` when the cursor becomes
`null`. It returns `true` when the cursor is identical (`===`) to `right.prototype`.

The model (`prototype_chain.dfy`, module `PrototypeChain`):

- An object is an identity `Obj`. A `Value` is `Null`, `Undefined` or `Object(ref)`.
- A `Heap` maps every object to its `[[Prototype]]` slot, which is what
  `Object.getPrototypeOf` returns. `Closed` says every link stays inside the heap.
- `WellFormed(heap, depth)` makes chains acyclic. The ghost map `depth` strictly
  decreases along every link. The loop's termination measure is `Rank`.
- `right` is reduced to the value of its `prototype` property. That value can be an
  object, `null`, or `undefined` (a constructor without a `prototype`).
- The loop is the method `MyInstanceOf`. It is proved equal to the recursive
  specification `Search`. `ChainFrom` and `Ancestors` list the objects the walk visits.
  `Checks` counts the loop's iterations. `Walk` applies `Object.getPrototypeOf` `k` times.
- The heap is a value and `MyInstanceOf` has no `modifies` clause. So the call is
  read-only, and two calls with the same arguments give the same result.

The loop makes one more null check after the last object, so it runs at most
`depth[left] + 1` times (exactly chain length + 1 on a miss).

## Model

| member | source | states |
|---|---|---|
| `PrototypeChain.MyInstanceOf` | docs/_mds/test.js:7-16 | The loop returns `true` exactly when `right.prototype` is an object strictly above `left` on its prototype chain. It returns the recursive walk's answer. It runs exactly `Checks` iterations, at most `depth[left] + 1`. |
| `PrototypeChain.Walk` | docs/_mds/test.js:14 | Repeated `Object.getPrototypeOf` on a closed heap always yields `null` or an object of the heap. Once it reaches `null` it stays `null`. |
| `PrototypeChain.ChainFrom` | docs/_mds/test.js:11-15 | The objects visited from a cursor all lie in the heap. Each has depth at most the cursor's (strictly below `Rank`), and there are at most `Rank` of them. So on an acyclic heap the walk is finite. |
| `PrototypeChain.Ancestors` | docs/_mds/test.js:8 | The chain searched begins at `left`'s prototype. It never contains `left` itself and has at most `depth[left]` objects. |
| `PrototypeChain.Search` | docs/_mds/test.js:11-15 | The recursive form of the loop: `false` at a null cursor, `true` when the cursor is identical to `right.prototype`, otherwise the answer one link up. Its contract states that a `true` answer means `right.prototype` is an object of the heap no deeper than the cursor. `SearchFindsMember` and `InstanceOfIffReachable` prove what the answer means. |
| `PrototypeChain.Checks` | docs/_mds/test.js:11-15 | The loop runs at least once, and at most once per object on the chain plus one final null check. |
| `PrototypeChain.SearchFindsMember` | docs/_mds/test.js:11-15 | The walk answers `true` if and only if `right.prototype` is an object among those visited. |
| `PrototypeChain.ChecksStopAtFirstMatch` | docs/_mds/test.js:12-14 | On a hit the loop stops at the first occurrence of the target, and no earlier object matched. On a miss it checks every object and then the final `null`, so it runs chain length + 1 times. |
| `PrototypeChain.NonObjectPrototypeNeverMatches` | docs/_mds/test.js:12-13 | The null check comes before the identity check. So when `right.prototype` is `null` or `undefined` the answer is `false`, after walking the whole chain. |
| `PrototypeChain.FirstIteration` | docs/_mds/test.js:8-13 | If `left`'s prototype is `null`, the answer is `false` after one check. If it is `right.prototype`, the answer is `true` after one check. |
| `PrototypeChain.SelfIsNotCompared` | docs/_mds/test.js:8-13 | `left` itself is never compared. `myInstanceOf(o, F)` is `false` when `F.prototype` is `o`. |
| `PrototypeChain.ChainIsWalk` | docs/_mds/test.js:8-14 | The i-th visited object is the result of i more `Object.getPrototypeOf` steps. After the last object that walk gives `null`. |
| `PrototypeChain.InstanceOfIffReachable` | docs/_mds/test.js:7-16 | The answer is `true` exactly when `right.prototype` is reached from `left` by one or more `Object.getPrototypeOf` steps. |
| `PrototypeChain.WalkAdds` | docs/_mds/test.js:14 | Walking `m` links and then `n` more is the same as walking `m + n` links. |
| `PrototypeChain.InstanceOfTransitive` | docs/_mds/test.js:7-16 | If `a` is on `left`'s chain and `b` is on `a`'s chain, then `b` is on `left`'s chain. |

## Left out

- The `console.log(Array.prototype.isPrototypeOf(arr))` demonstration and the commented-out `__proto__` comparison (docs/_mds/test.js:1-5). They are output and a built-in call with no logic of their own.
- `Object.getPrototypeOf` throwing on a `null` or `undefined` `left`, and boxing primitive `left` values. `left` is modelled as an object of the heap, and the lookup is total.
- `right.prototype` as a getter, a missing `right`, proxies and their traps, and cross-realm objects.
- `right.prototype` values that are primitives other than `undefined` (numbers, strings, booleans, symbols, bigints). Like `undefined`, they are never identical to an object cursor, so `NonObjectPrototypeNeverMatches` covers their behaviour.
- Cyclic prototype chains. Ordinary objects cannot form one, because `Object.setPrototypeOf` refuses a cycle; only proxies can, and they are left out. On such a chain `myInstanceOf` returns `true` if it meets `right.prototype` first, and otherwise never returns. `WellFormed` excludes every cyclic heap by requiring a strictly decreasing depth.
- The parts of OrdinaryHasInstance this code does not implement: the IsCallable check, bound functions, and the early return for a non-object `O`.
- The TypeError that OrdinaryHasInstance throws when `P` (`right.prototype`) is not an object. `myInstanceOf` does not throw here: its null check (docs/_mds/test.js:12) returns `false` after walking the whole chain, and `NonObjectPrototypeNeverMatches` states that result.
- The standard output written by the script.
