/**
  The search tree behind the 1-Wire ROM search.

  A device number is a sequence of bits, least significant bit first, so that bit number k of the
  C code (counted from 1) is element k-1 here.  The devices on the bus form a binary tree; one
  search walks it from the root to a leaf.  This module says where such a walk ends, for any set
  of devices of one length and any seed that the caller left in the search state.
*/
module RomTrie {

  type Rom = seq<bool>

  /** Some device starts with `path`: the devices still listening after `path` was written. */
  ghost predicate Below(S: set<Rom>, path: Rom) {
    exists d :: d in S && path <= d
  }

  /** The listening devices disagree about the bit after `path`. */
  ghost predicate Conflict(S: set<Rom>, path: Rom) {
    Below(S, path + [false]) && Below(S, path + [true])
  }

  ghost predicate Uniform(S: set<Rom>, n: nat) {
    forall d :: d in S ==> |d| == n
  }

  /** What the search prefers in a conflict after k bits, given the seed left by the last call. */
  predicate Prefer(rom: Rom, last: int, k: nat)
    requires k < |rom|
  {
    if k + 1 < last then rom[k] else k + 1 == last
  }

  ghost predicate Direction(S: set<Rom>, rom: Rom, last: int, path: Rom)
    requires |path| < |rom|
  {
    if Conflict(S, path) then Prefer(rom, last, |path|) else Below(S, path + [true])
  }

  /** The leaf that the walk reaches from `path`. */
  ghost function Descend(S: set<Rom>, rom: Rom, last: int, path: Rom): (leaf: Rom)
    requires |path| <= |rom|
    ensures |leaf| == |rom| && path <= leaf
    decreases |rom| - |path|
  {
    if |path| == |rom| then path
    else Descend(S, rom, last, path + [Direction(S, rom, last, path)])
  }

  /** The last position (from 1) on `path` at which there was a conflict and 0 was taken, or 0. */
  ghost function LastZero(S: set<Rom>, path: Rom): (z: nat)
    ensures z <= |path|
  {
    if path == [] then 0
    else
      var parent := path[..|path| - 1];
      if Conflict(S, parent) && !path[|path| - 1] then |path| else LastZero(S, parent)
  }

  // ----- the order in which devices are listed

  ghost predicate LessAt(a: Rom, b: Rom, k: nat) {
    k < |a| && k < |b| && a[..k] == b[..k] && !a[k] && b[k]
  }

  ghost predicate Less(a: Rom, b: Rom) {
    exists k :: LessAt(a, b, k)
  }

  lemma LessTotal(a: Rom, b: Rom)
    requires |a| == |b|
    ensures a == b || Less(a, b) || Less(b, a)
  {
    if a != b {
      var k := FirstDifference(a, b);
      assert LessAt(a, b, k) || LessAt(b, a, k);
    }
  }

  lemma FirstDifference(a: Rom, b: Rom) returns (k: nat)
    requires |a| == |b| && a != b
    ensures k < |a| && a[..k] == b[..k] && a[k] != b[k]
  {
    assert a == a[..|a|] && b == b[..|b|];
    k := 0;
    while k < |a| && a[k] == b[k]
      invariant k <= |a| && a[..k] == b[..k]
    {
      assert a[..k + 1] == a[..k] + [a[k]] && b[..k + 1] == b[..k] + [b[k]];
      k := k + 1;
    }
  }

  lemma LessTransitive(a: Rom, b: Rom, c: Rom)
    requires Less(a, b) && Less(b, c)
    ensures Less(a, c)
  {
    var i: nat :| LessAt(a, b, i);
    var j: nat :| LessAt(b, c, j);
    var k := if i < j then i else j;
    assert a[..k] == a[..i][..k] && b[..k] == b[..i][..k] && b[..k] == b[..j][..k] && c[..k] == c[..j][..k];
    assert i < j ==> b[i] == b[..j][i] && c[i] == c[..j][i];
    assert j < i ==> b[j] == b[..i][j] && a[j] == a[..i][j];
    assert LessAt(a, c, k);
  }

  lemma LessStrict(a: Rom, b: Rom)
    requires Less(a, b)
    ensures a != b && !Less(b, a)
  {
    var i: nat :| LessAt(a, b, i);
    forall j: nat ensures !LessAt(b, a, j) {
      if j < |a| && j < |b| {
        assert i < j ==> b[i] == b[..j][i] && a[i] == a[..j][i];
        assert j < i ==> b[j] == b[..i][j] && a[j] == a[..i][j];
      }
    }
  }

  /** A difference inside a prefix decides the order of every pair of extensions. */
  lemma LessExtends(p: Rom, q: Rom, a: Rom, b: Rom)
    requires Less(p, q) && p <= a && q <= b
    ensures Less(a, b)
  {
    var k: nat :| LessAt(p, q, k);
    assert a[..k] == p[..k] && b[..k] == q[..k];
    assert LessAt(a, b, k);
  }

  // ----- where the walk ends

  lemma BelowChild(S: set<Rom>, path: Rom, n: nat)
    requires Uniform(S, n) && Below(S, path) && |path| < n
    ensures Below(S, path + [false]) || Below(S, path + [true])
  {
    var d :| d in S && path <= d;
    if d[|path|] {
      assert path + [true] <= d;
    } else {
      assert path + [false] <= d;
    }
  }

  lemma {:induction false} LeafIsDevice(S: set<Rom>, rom: Rom, last: int, path: Rom)
    requires Uniform(S, |rom|) && |path| <= |rom| && Below(S, path)
    ensures Descend(S, rom, last, path) in S
    decreases |rom| - |path|
  {
    if |path| < |rom| {
      BelowChild(S, path, |rom|);
      assert Below(S, path + [Direction(S, rom, last, path)]);
      LeafIsDevice(S, rom, last, path + [Direction(S, rom, last, path)]);
    } else {
      var d :| d in S && path <= d;
      assert d == path;
    }
  }

  lemma DirectionTowards(S: set<Rom>, rom: Rom, last: int, path: Rom, q: Rom)
    requires Uniform(S, |rom|) && path < q && |q| <= |rom| && Below(S, q)
    requires Conflict(S, path) ==> Prefer(rom, last, |path|) == q[|path|]
    ensures Direction(S, rom, last, path) == q[|path|] && path + [q[|path|]] <= q
  {
    var d :| d in S && q <= d;
    assert path + [q[|path|]] <= d;
    BelowChild(S, path, |rom|);
  }

  /** The walk follows `q` as long as every conflict on the way is decided in favour of `q`. */
  lemma {:induction false} WalkFollows(S: set<Rom>, rom: Rom, last: int, path: Rom, q: Rom)
    requires Uniform(S, |rom|) && path <= q && |q| <= |rom| && Below(S, q)
    requires forall k :: |path| <= k < |q| && Conflict(S, q[..k]) ==> Prefer(rom, last, k) == q[k]
    ensures Descend(S, rom, last, path) == Descend(S, rom, last, q)
    decreases |q| - |path|
  {
    if |path| == |q| {
      assert path == q;
    } else {
      assert q[..|path|] == path;
      DirectionTowards(S, rom, last, path, q);
      WalkFollows(S, rom, last, path + [q[|path|]], q);
    }
  }

  /** No conflict after n bits or more is decided in favour of 1. */
  ghost predicate PrefersZero(S: set<Rom>, rom: Rom, last: int, n: nat) {
    forall p :: n <= |p| < |rom| && Conflict(S, p) ==> !Prefer(rom, last, |p|)
  }

  /** Not taking the branch of a device without a reason to prefer 1 leads to a smaller one. */
  lemma BranchIsLess(S: set<Rom>, rom: Rom, last: int, path: Rom, e: Rom, d: Rom)
    requires |path| < |rom| == |e| && e in S && path <= e
    requires PrefersZero(S, rom, last, |path|)
    requires path + [Direction(S, rom, last, path)] <= d && |d| == |e|
    requires e[|path|] != Direction(S, rom, last, path)
    ensures Less(d, e)
  {
    assert path + [e[|path|]] <= e;
    assert d[..|path|] == path == e[..|path|];
    assert LessAt(d, e, |path|);
  }

  /** Below `path` the walk finds the least device, if no conflict is decided in favour of 1. */
  lemma {:induction false} WalkIsLeast(S: set<Rom>, rom: Rom, last: int, path: Rom, e: Rom)
    requires |path| <= |rom| == |e| && e in S && path <= e
    requires PrefersZero(S, rom, last, |path|)
    ensures Descend(S, rom, last, path) == e || Less(Descend(S, rom, last, path), e)
    decreases |rom| - |path|
  {
    if |path| < |rom| {
      var next := path + [Direction(S, rom, last, path)];
      var d := Descend(S, rom, last, next);
      if e[|path|] == Direction(S, rom, last, path) {
        assert next <= e;
        WalkIsLeast(S, rom, last, next, e);
      } else {
        BranchIsLess(S, rom, last, path, e, d);
      }
    } else {
      assert path == e;
    }
  }

  // ----- the last zero

  ghost predicate IsLastZero(S: set<Rom>, path: Rom, z: nat) {
    && z <= |path|
    && (z > 0 ==> Conflict(S, path[..z - 1]) && !path[z - 1])
    && forall k :: z <= k < |path| && Conflict(S, path[..k]) ==> path[k]
  }

  lemma IsLastZeroStep(S: set<Rom>, path: Rom, bit: bool, z: nat)
    requires IsLastZero(S, path, z)
    ensures IsLastZero(S, path + [bit], if Conflict(S, path) && !bit then |path| + 1 else z)
  {
    var next := path + [bit];
    assert forall k :: 0 <= k <= |path| ==> next[..k] == path[..k];
    assert path[..|path|] == path;
  }

  lemma {:induction false} LastZeroMeaning(S: set<Rom>, path: Rom)
    ensures IsLastZero(S, path, LastZero(S, path))
  {
    if path != [] {
      var n := |path| - 1;
      LastZeroMeaning(S, path[..n]);
      IsLastZeroStep(S, path[..n], path[n], LastZero(S, path[..n]));
      assert path[..n] + [path[n]] == path;
    }
  }

  /** The two facts of LastZeroMeaning determine the number. */
  lemma LastZeroUnique(S: set<Rom>, path: Rom, z: nat)
    requires IsLastZero(S, path, z)
    ensures LastZero(S, path) == z
  {
    LastZeroMeaning(S, path);
    var y := LastZero(S, path);
    assert y > 0 ==> Conflict(S, path[..y - 1]) && !path[y - 1];
  }

  /** A device after `rom` branches off at a position where `rom` took 0, at or before the last zero. */
  lemma LaterDeviceBranches(S: set<Rom>, rom: Rom, d: Rom, k: nat)
    requires rom in S && d in S && LessAt(rom, d, k)
    ensures Conflict(S, rom[..k]) && k < LastZero(S, rom)
  {
    assert rom[..k] + [false] == rom[..k + 1] <= rom;
    assert rom[..k] + [true] == d[..k + 1] <= d;
    LastZeroMeaning(S, rom);
  }

  /** The devices after `rom` exist exactly when there is a last zero. */
  lemma LastZeroIsMaximum(S: set<Rom>, rom: Rom)
    requires rom in S
    ensures LastZero(S, rom) == 0 <==> forall d :: d in S ==> !Less(rom, d)
  {
    var z := LastZero(S, rom);
    LastZeroMeaning(S, rom);
    if z > 0 {
      var d :| d in S && rom[..z - 1] + [true] <= d;
      assert d[..z - 1] == rom[..z - 1];
      assert LessAt(rom, d, z - 1);
    } else {
      forall d | d in S ensures !Less(rom, d) {
        if Less(rom, d) {
          var k: nat :| LessAt(rom, d, k);
          LaterDeviceBranches(S, rom, d, k);
        }
      }
    }
  }

  ghost predicate IsLeast(S: set<Rom>, d: Rom) {
    d in S && forall e :: e in S ==> e == d || Less(d, e)
  }

  ghost predicate IsNext(S: set<Rom>, rom: Rom, d: Rom) {
    d in S && Less(rom, d) && forall e :: e in S && Less(rom, e) ==> e == d || Less(d, e)
  }

  /** A fresh search finds the least device. */
  lemma {:induction false} FreshSearchFindsLeast(S: set<Rom>, rom: Rom)
    requires Uniform(S, |rom|) && S != {}
    ensures IsLeast(S, Descend(S, rom, 0, []))
  {
    var d0 :| d0 in S;
    assert Below(S, []);
    LeafIsDevice(S, rom, 0, []);
    forall e | e in S ensures var d := Descend(S, rom, 0, []); e == d || Less(d, e) {
      WalkIsLeast(S, rom, 0, [], e);
    }
  }

  /** Taking 1 at a position where `rom` took 0 in a conflict leads to the least device past that fork. */
  lemma ForkFindsLeast(S: set<Rom>, rom: Rom, last: nat)
    requires Uniform(S, |rom|) && 0 < last <= |rom| && Conflict(S, rom[..last - 1])
    ensures var d := Descend(S, rom, last, []);
            var fork := rom[..last - 1] + [true];
            d in S && fork <= d && forall e :: e in S && fork <= e ==> e == d || Less(d, e)
  {
    var fork := rom[..last - 1] + [true];
    forall k | 0 <= k < |fork| ensures Prefer(rom, last, k) == fork[k] {}
    WalkFollows(S, rom, last, [], fork);
    LeafIsDevice(S, rom, last, fork);
    forall e | e in S && fork <= e
      ensures var d := Descend(S, rom, last, []); e == d || Less(d, e)
    {
      WalkIsLeast(S, rom, last, fork, e);
    }
  }

  /** From the last zero of a device the search finds exactly the next device. */
  lemma {:induction false} LastZeroFindsNext(S: set<Rom>, rom: Rom)
    requires Uniform(S, |rom|) && rom in S && LastZero(S, rom) > 0
    ensures IsNext(S, rom, Descend(S, rom, LastZero(S, rom), []))
  {
    var z := LastZero(S, rom);
    var d := Descend(S, rom, z, []);
    LastZeroMeaning(S, rom);
    ForkFindsLeast(S, rom, z);
    assert LessAt(rom, d, z - 1);
    forall e | e in S && Less(rom, e) ensures e == d || Less(d, e) {
      NotBeforeFork(S, rom, d, e);
    }
  }

  lemma NotBeforeFork(S: set<Rom>, rom: Rom, d: Rom, e: Rom)
    requires rom in S && e in S && Less(rom, e) && LastZero(S, rom) > 0
    requires LessAt(rom, d, LastZero(S, rom) - 1)
    requires rom[..LastZero(S, rom) - 1] + [true] <= e ==> e == d || Less(d, e)
    ensures e == d || Less(d, e)
  {
    var z := LastZero(S, rom);
    var k: nat :| LessAt(rom, e, k);
    LaterDeviceBranches(S, rom, e, k);
    if k < z - 1 {
      EarlierBranch(rom, d, e, z - 1, k);
    }
  }

  lemma EarlierBranch(rom: Rom, d: Rom, e: Rom, fork: nat, k: nat)
    requires LessAt(rom, d, fork) && LessAt(rom, e, k) && k < fork
    ensures Less(d, e)
  {
    assert d[..k] == d[..fork][..k] == rom[..fork][..k] == rom[..k];
    assert d[k] == d[..fork][k] == rom[..fork][k];
    assert LessAt(d, e, k);
  }

  /** A directed walk reaches its target exactly when the target is on the bus, as long as no
      conflict at the very last bit can turn it away. */
  lemma {:induction false} DirectedWalk(S: set<Rom>, target: Rom)
    requires Uniform(S, |target|) && S != {} && |target| > 0
    requires forall p :: |p| == |target| - 1 ==> !Conflict(S, p)
    ensures Descend(S, target, |target|, []) == target <==> target in S
  {
    if target in S {
      assert forall k :: 0 <= k < |target| && Conflict(S, target[..k]) ==> Prefer(target, |target|, k) == target[k];
      WalkFollows(S, target, |target|, [], target);
    } else {
      var d :| d in S;
      assert Below(S, []);
      LeafIsDevice(S, target, |target|, []);
    }
  }
}
