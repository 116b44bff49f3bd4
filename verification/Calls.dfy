/// System call names: the hash that kernel and user side compute (minkernel/ArchKit/ArchKit.h,
/// libSystem/src/Utils.cpp) and the table it is looked up in (HalCoreInterruptHandler.cpp).

module Calls {
  import opened Translation

  const SEED: bv64 := 0xcbf29ce484222325

  // ---- the hash --------------------------------------------------------------------------

  /// A char as a 64-bit operand.
  function SignExtended(c: bv8): bv64 {
    if c & 0x80 != 0 then 0xffff_ffff_ffff_ff00 | (c as bv64) else c as bv64
  }

  function Mix(h: bv64, x: bv64): bv64 { h ^ x }

  function Scale(h: bv64): bv64 { h * 0x100000001b3 }

  /// The factor that undoes the multiplication modulo 2^64.
  function Unscale(h: bv64): bv64 { h * 0xce965057aff6957b }

  function Step(h: bv64, c: bv8): bv64 { Scale(Mix(h, SignExtended(c))) }

  function Feed(h: bv64, name: seq<bv8>): bv64
    decreases |name|
  {
    if name == [] then h else Feed(Step(h, name[0]), name[1..])
  }

  /// The hash of a name; the empty name has none.
  function Hash(name: seq<bv8>): bv64 { if name == [] then 0 else Feed(SEED, name) }

  /// Known values: the published one of "foobar", and one that shows how a character with its high bit set
  /// enters the hash.
  lemma KnownHashes()
    ensures Hash([102, 111, 111, 98, 97, 114]) == 0x85944171f73967e8
    ensures Hash([0xE9]) == 0x509c33b379fe2ea4
    ensures Hash([]) == 0
  {
    var seed: bv64 := 0xcbf29ce484222325;
    assert Step(seed, 0xE9) == 0x509c33b379fe2ea4;
    assert Hash([0xE9]) == Feed(seed, [0xE9]);
    FeedFirst(seed, [0xE9]);
    var name: seq<bv8> := [102, 111, 111, 98, 97, 114];
    assert Hash(name) == Feed(seed, name);
    assert Step(0xcbf29ce484222325, 102) == 0xaf63db4c8601ead9;
    assert Step(0xaf63db4c8601ead9, 111) == 0x08985907b541d342;
    assert Step(0x08985907b541d342, 111) == 0xdcb27518fed9d577;
    assert Step(0xdcb27518fed9d577, 98) == 0xdd120e790c2512af;
    assert Step(0xdd120e790c2512af, 97) == 0xcac165afa2fef40a;
    assert Step(0xcac165afa2fef40a, 114) == 0x85944171f73967e8;
    hide Step;
    FeedFirst(0xcbf29ce484222325, name[0..]);
    assert name[0..][1..] == name[1..];
    FeedFirst(0xaf63db4c8601ead9, name[1..]);
    assert name[1..][1..] == name[2..];
    FeedFirst(0x08985907b541d342, name[2..]);
    assert name[2..][1..] == name[3..];
    FeedFirst(0xdcb27518fed9d577, name[3..]);
    assert name[3..][1..] == name[4..];
    FeedFirst(0xdd120e790c2512af, name[4..]);
    assert name[4..][1..] == name[5..];
    FeedFirst(0xcac165afa2fef40a, name[5..]);
    assert name[5..][1..] == name[6..];
  }

  lemma FeedFirst(h: bv64, name: seq<bv8>)
    requires name != []
    ensures Feed(h, name) == Feed(Step(h, name[0]), name[1..])
    ensures |name| == 1 ==> Feed(h, name) == Step(h, name[0])
  {
  }

  function StepBack(h: bv64, c: bv8): bv64 { Mix(Unscale(h), SignExtended(c)) }

  lemma Inverse(h: bv64)
    ensures (h * 0x100000001b3) * 0xce965057aff6957b == h
    ensures (h * 0xce965057aff6957b) * 0x100000001b3 == h
  {
  }

  lemma ScaledBack(h: bv64, k: bv64)
    requires k == h * 0x100000001b3
    ensures Unscale(k) == h
  {
    Inverse(h);
  }

  lemma UnscaledBack(h: bv64, k: bv64)
    requires k == h * 0xce965057aff6957b
    ensures Scale(k) == h
  {
    Inverse(h);
  }

  lemma ScaleBijective(h: bv64)
    ensures Unscale(Scale(h)) == h && Scale(Unscale(h)) == h
  {
    assert Unscale(Scale(h)) == h by {
      hide Unscale;
      ScaledBack(h, Scale(h));
    }
    assert Scale(Unscale(h)) == h by {
      hide Scale;
      UnscaledBack(h, Unscale(h));
    }
  }

  lemma MixBijective(h: bv64, x: bv64)
    ensures Mix(Mix(h, x), x) == h
  {
  }

  /// Each step of the hash is a bijection on 64-bit states.
  lemma StepBijective(h: bv64, c: bv8)
    ensures StepBack(Step(h, c), c) == h && Step(StepBack(h, c), c) == h
  {
    hide Scale, Unscale, Mix, SignExtended;
    var x := SignExtended(c);
    ScaleBijective(Mix(h, x));
    ScaleBijective(h);
    MixBijective(h, x);
    MixBijective(Unscale(h), x);
  }

  lemma StepSeparates(h: bv64, c: bv8, d: bv8)
    requires Step(h, c) == Step(h, d)
    ensures c == d
  {
    hide Scale, Unscale, Mix, SignExtended;
    ScaleBijective(Mix(h, SignExtended(c)));
    ScaleBijective(Mix(h, SignExtended(d)));
    MixSeparates(h, SignExtended(c), SignExtended(d));
    ExtensionSeparates(c, d);
  }

  lemma MixSeparates(h: bv64, x: bv64, y: bv64)
    requires Mix(h, x) == Mix(h, y)
    ensures x == y
  {
  }

  lemma ExtensionSeparates(c: bv8, d: bv8)
    requires SignExtended(c) == SignExtended(d)
    ensures c == d
  {
  }

  /// Whatever follows, two different states stay different.
  lemma {:induction false} FeedInjective(g: bv64, h: bv64, name: seq<bv8>)
    requires Feed(g, name) == Feed(h, name)
    ensures g == h
    decreases |name|
  {
    hide Step, StepBack;
    if name != [] {
      FeedInjective(Step(g, name[0]), Step(h, name[0]), name[1..]);
      StepBijective(g, name[0]);
      StepBijective(h, name[0]);
    }
  }

  lemma {:induction false} FeedConcat(h: bv64, a: seq<bv8>, b: seq<bv8>)
    ensures Feed(h, a + b) == Feed(Feed(h, a), b)
    decreases |a|
  {
    hide Step;
    if a == [] {
      assert a + b == b;
    } else {
      assert (a + b)[0] == a[0] && (a + b)[1..] == a[1..] + b;
      FeedConcat(Step(h, a[0]), a[1..], b);
    }
  }

  lemma FeedAround(h: bv64, s: seq<bv8>, k: nat)
    requires k < |s|
    ensures Feed(h, s) == Feed(Step(Feed(h, s[..k]), s[k]), s[k + 1..])
  {
    hide Step;
    assert s == s[..k] + s[k..];
    FeedConcat(h, s[..k], s[k..]);
    assert s[k..][0] == s[k] && s[k..][1..] == s[k + 1..];
  }

  /// Two names of the same length that differ in one character never have the same hash.
  lemma NamesSeparated(s: seq<bv8>, t: seq<bv8>, k: nat)
    requires |s| == |t| && k < |s| && s[k] != t[k]
    requires forall i: nat | i < |s| && i != k :: s[i] == t[i]
    ensures Hash(s) != Hash(t)
  {
    hide Step, Feed;
    assert s[..k] == t[..k] && s[k + 1..] == t[k + 1..];
    var h := Feed(SEED, s[..k]);
    FeedAround(SEED, s, k);
    FeedAround(SEED, t, k);
    if Hash(s) == Hash(t) {
      FeedInjective(Step(h, s[k]), Step(h, t[k]), s[k + 1..]);
      StepSeparates(h, s[k], t[k]);
    }
  }

  /// A terminated string.
  predicate IsText(s: seq<bv8>, n: nat) {
    n < |s| && s[n] == 0 && forall i | 0 <= i < n :: s[i] != 0
  }

  /// ke_hash_64; None is a null pointer.
  method KeHash64(name: Option<seq<bv8>>, ghost n: nat) returns (hash: bv64)
    requires name.Some? ==> IsText(name.value, n)
    ensures hash == if name.None? then 0 else Hash(name.value[..n])
  {
    hide Step;
    if name.None? || name.value[0] == 0 {
      return 0;
    }
    hash := SEED;
    var p, s := 0, name.value;
    while s[p] != 0
      invariant p <= n && Feed(hash, s[..n][p..]) == Feed(SEED, s[..n])
      decreases n - p
    {
      assert s[..n][p..][1..] == s[..n][p + 1..];
      hash := Step(hash, s[p]);
      p := p + 1;
    }
  }

  /// nesys_hash_64, the copy on the user side, computes the same function.
  method NesysHash64(path: Option<seq<bv8>>, ghost n: nat) returns (hash: bv64)
    requires path.Some? ==> IsText(path.value, n)
    ensures hash == if path.None? then 0 else Hash(path.value[..n])
  {
    hide Step;
    if path.None? || path.value[0] == 0 {
      return 0;
    }
    hash := SEED;
    assert hash != 0;
    var s, p := path.value, 0;
    while s[p] != 0
      invariant p <= n && Feed(hash, s[..n][p..]) == Feed(SEED, s[..n])
      decreases n - p
    {
      assert s[..n][p..][1..] == s[..n][p + 1..];
      hash := Step(hash, s[p]);
      p := p + 1;
    }
  }

  // ---- the dispatch table ----------------------------------------------------------------

  /// A handler; the null pointer is modelled by None where one is possible.
  type Proc = nat

  datatype Slot = Slot(hash: bv64, hooked: bool, proc: Option<Proc>)

  datatype Call = Call(hash: bv64, proc: Proc)

  datatype Outcome = Nothing | Runs(proc: Proc) | Stop

  /// The handler that answers a hash, given the installations in the order they were made: the
  /// earliest one.
  function Earliest(log: seq<Call>, hash: bv64): Option<Proc> {
    if log == [] then None
    else if log[0].hash == hash then Some(log[0].proc)
    else Earliest(log[1..], hash)
  }

  lemma {:induction false} EarliestAt(log: seq<Call>, hash: bv64, i: nat)
    requires i < |log| && log[i].hash == hash && forall j: nat | j < i :: log[j].hash != hash
    ensures Earliest(log, hash) == Some(log[i].proc)
    decreases i
  {
    if i > 0 {
      assert log[0].hash != hash;
      EarliestAt(log[1..], hash, i - 1);
    }
  }

  lemma {:induction false} EarliestNone(log: seq<Call>, hash: bv64)
    ensures Earliest(log, hash) == None <==> forall j: nat | j < |log| :: log[j].hash != hash
    decreases |log|
  {
    if log != [] {
      EarliestNone(log[1..], hash);
      if log[0].hash != hash {
        assert forall j: nat | 0 < j < |log| :: log[j] == log[1..][j - 1];
        assert forall j: nat | j < |log[1..]| :: log[1..][j] == log[j + 1];
      }
    }
  }

  /// Later installations never take a hash away from the handler that has it.
  lemma {:induction false} EarlierWins(log: seq<Call>, more: seq<Call>, hash: bv64)
    ensures Earliest(log + more, hash)
            == if Earliest(log, hash).Some? then Earliest(log, hash) else Earliest(more, hash)
    decreases |log|
  {
    if log == [] {
      assert log + more == more;
    } else {
      assert (log + more)[0] == log[0] && (log + more)[1..] == log[1..] + more;
      EarlierWins(log[1..], more, hash);
    }
  }

  class DispatchTable {
    const slots: array<Slot>

    /// The installations made so far, in order.
    ghost var log: seq<Call>

    ghost predicate Valid()
      reads this, slots
    {
      && slots.Length == 512 && |log| <= 512
      && forall i: nat | i < 512 ::
          if i < |log| then slots[i] == Slot(log[i].hash, true, Some(log[i].proc)) else !slots[i].hooked
    }

    constructor ()
      ensures Valid() && fresh(slots) && log == []
    {
      slots := new Slot[512](_ => Slot(0, false, None));
      log := [];
    }

    /// ke_install_syscall: the slot taken, or -1.
    method Install(name: Option<seq<bv8>>, proc: Option<Proc>, ghost n: nat) returns (slot: int)
      requires Valid() && (name.Some? ==> IsText(name.value, n))
      modifies this`log, slots
      ensures Valid()
      ensures slot == -1 <==> name.None? || n == 0 || Hash(name.value[..n]) == 0 || proc.None? || |old(log)| == 512
      ensures slot == -1 ==> log == old(log) && slots[..] == old(slots[..])
      ensures slot != -1 ==> slot == |old(log)| && log == old(log) + [Call(Hash(name.value[..n]), proc.value)]
    {
      hide Hash;
      if name.None? || name.value[0] == 0 {
        return -1;
      }
      var hash := KeHash64(name, n);
      if hash == 0 || proc.None? {
        return -1;
      }
      for i := 0 to 512
        invariant i <= |log| && log == old(log) && slots[..] == old(slots[..])
      {
        if !slots[i].hooked {
          slots[i] := Slot(hash, true, proc);
          log := log + [Call(hash, proc.value)];
          return i;
        }
      }
      return -1;
    }

    /// The lookup of hal_system_call_enter: nothing without a user, a hash or an argument; else the
    /// earliest handler installed under the hash, and the kernel stops when there is none.
    method Dispatch(hasUser: bool, hash: bv64, arg: nat) returns (r: Outcome)
      requires Valid()
      ensures r == if !hasUser || arg == 0 || hash == 0 then Nothing
                   else if Earliest(log, hash).Some? then Runs(Earliest(log, hash).value) else Stop
    {
      if !hasUser {
        return Nothing;
      }
      if arg == 0 || hash == 0 {
        return Nothing;
      }
      for i := 0 to 512
        invariant forall j: nat | j < i && j < |log| :: log[j].hash != hash
      {
        if slots[i].hooked && hash == slots[i].hash {
          if slots[i].proc.None? {
            break;
          }
          EarliestAt(log, hash, i);
          return Runs(slots[i].proc.value);
        }
      }
      EarliestNone(log, hash);
      return Stop;
    }
  }
}
