/**
  Wrapping of secrets under the process-wide key encryption key (p2p/core/src/privkey.c). The box opens only whole
  and under the key and nonce it was sealed with, and the nonce is a collision-free function of the counter.
 */
module PrivKey {
  import opened Prelude

  datatype Code = Ok | BadInput | Internal | BadSig

  /** A sealed secret: the key it was sealed under, the counter its nonce was derived from, the secret. */
  datatype Box = Box(kek: nat, counter: nat, plain: seq<int>)

  /** Length of the authenticator in front of a ciphertext. */
  const TAG := 16

  const WORD := 0x1_0000_0000_0000_0000

  /** The static variables of the file. */
  datatype Vault = Vault(initialized: bool, kek: nat, counter: nat)

  const UNSET := Vault(false, 0, 0)

  datatype Call =
    | Init(random: nat)
    | Cleanup
    | Wrap(plain: seq<int>, hasMemory: bool)   // generate, from_seed and encrypt, as far as the vault goes

  /** Seals with the next counter value; nothing happens without a key, or when the handle is not allocated. */
  function WrapStep(v: Vault, plain: seq<int>, hasMemory: bool): (Vault, Option<Box>) {
    if !v.initialized || !hasMemory then (v, None)
    else
      var next := (v.counter + 1) % WORD;
      (v.(counter := next), Some(Box(v.kek, next, plain)))
  }

  function Step(v: Vault, call: Call): (Vault, Option<Box>) {
    match call
    case Init(random) => (if v.initialized then v else Vault(true, random, 0), None)
    case Cleanup => (UNSET, None)
    case Wrap(plain, hasMemory) => WrapStep(v, plain, hasMemory)
  }

  function Unwrap(v: Vault, box: Box, length: nat, nonceCounter: nat): (Code, seq<int>) {
    if !v.initialized then (Internal, [])
    else if length < TAG then (BadInput, [])
    else if box.kek == v.kek && box.counter == nonceCounter && length == |box.plain| + TAG then (Ok, box.plain)
    else (BadSig, [])
  }

  /** A handle: the sealed seed and the cached public key. */
  datatype Handle = Handle(box: Box, publicKey: seq<int>)

  class Module {
    var initialized: bool
    var kek: nat
    var counter: nat

    ghost function View(): Vault
      reads this
    {
      Vault(initialized, kek, counter)
    }

    constructor ()
      ensures View() == UNSET
    {
      initialized, kek, counter := false, 0, 0;
    }

    method Initialize(random: nat)
      modifies this
      ensures View() == Step(old(View()), Init(random)).0
    {
      if initialized {
        return;
      }
      kek := random;
      initialized := true;
      counter := 0;
    }

    method CleanUp()
      modifies this
      ensures View() == Step(old(View()), Cleanup).0
    {
      kek := 0;
      initialized := false;
      counter := 0;
    }

    /** A handle around a random seed. */
    method Generate(seed: seq<int>, publicKey: seq<int>, hasMemory: bool) returns (handle: Option<Handle>)
      modifies this
      ensures var r := WrapStep(old(View()), seed, hasMemory);
              View() == r.0 && handle == if r.1.Some? then Some(Handle(r.1.value, publicKey)) else None
      ensures handle.Some? <==> old(initialized) && hasMemory
      ensures handle.None? ==> View() == old(View())
    {
      if !initialized {
        return None;
      }
      if !hasMemory {
        return None;
      }
      counter := (counter + 1) % WORD;
      return Some(Handle(Box(kek, counter, seed), publicKey));
    }

    method FromSeed(seed: Option<seq<int>>, publicKey: seq<int>, hasMemory: bool) returns (handle: Option<Handle>)
      modifies this
      ensures var r := WrapStep(old(View()), if seed.Some? then seed.value else [], seed.Some? && hasMemory);
              && View() == r.0
              && handle == if r.1.Some? then Some(Handle(r.1.value, publicKey)) else None
      ensures handle.Some? <==> seed.Some? && old(initialized) && hasMemory
      ensures handle.None? ==> View() == old(View())
    {
      if seed.None? || !initialized {
        return None;
      }
      if !hasMemory {
        return None;
      }
      counter := (counter + 1) % WORD;
      return Some(Handle(Box(kek, counter, seed.value), publicKey));
    }

    method Encrypt(plain: Option<seq<int>>) returns (code: Code, box: Option<Box>)
      modifies this
      ensures var r := WrapStep(old(View()), if plain.Some? then plain.value else [], plain.Some?);
              && View() == r.0 && box == r.1
              && code == if plain.None? then BadInput else if r.1.None? then Internal else Ok
      ensures code == Ok <==> plain.Some? && old(initialized)
    {
      if plain.None? {
        return BadInput, None;
      }
      if !initialized {
        return Internal, None;
      }
      counter := (counter + 1) % WORD;
      return Ok, Some(Box(kek, counter, plain.value));
    }

    method Decrypt(box: Box, length: nat, nonceCounter: nat) returns (code: Code, plain: seq<int>)
      ensures (code, plain) == Unwrap(View(), box, length, nonceCounter)
    {
      if !initialized {
        return Internal, [];
      }
      if length < TAG {
        return BadInput, [];
      }
      if box.kek == kek && box.counter == nonceCounter && length == |box.plain| + TAG {
        return Ok, box.plain;
      }
      return BadSig, [];
    }
  }

  // ---------------------------------------------------------------- runs

  /** The vault after a run of calls, every box sealed on the way, oldest first, and the keys drawn. */
  datatype Run = Run(vault: Vault, boxes: seq<Box>, drawn: set<nat>)

  function Extend(r: Run, call: Call): Run {
    var s := Step(r.vault, call);
    Run(s.0, r.boxes + (if s.1.Some? then [s.1.value] else []), if call.Init? then r.drawn + {call.random} else r.drawn)
  }

  function After(calls: seq<Call>): Run {
    if calls == [] then Run(UNSET, [], {}) else Extend(After(calls[..|calls| - 1]), calls[|calls| - 1])
  }

  /** Every key encryption key is drawn afresh. */
  ghost predicate FreshDraws(calls: seq<Call>) {
    forall i: nat | i < |calls| && calls[i].Init? :: calls[i].random !in After(calls[..i]).drawn
  }

  ghost predicate Congruent(x: int, y: int) {
    (x - y) % WORD == 0
  }

  ghost predicate RunInv(r: Run) {
    && 0 <= r.vault.counter < WORD
    && (r.vault.initialized ==> r.vault.kek in r.drawn)
    && (forall a: nat | a < |r.boxes| :: r.boxes[a].kek in r.drawn && 0 <= r.boxes[a].counter < WORD)
    && (forall a: nat, b: nat | a < b < |r.boxes| && r.boxes[a].kek == r.boxes[b].kek ::
          Congruent(r.boxes[b].counter - r.boxes[a].counter, b - a))
    && (forall a: nat | a < |r.boxes| && r.vault.initialized && r.boxes[a].kek == r.vault.kek ::
          Congruent(r.vault.counter - r.boxes[a].counter, |r.boxes| - 1 - a))
  }

  lemma CongruentStep(x: int, y: int, c: int)
    requires Congruent(c - x, y) && c >= 0
    ensures Congruent((c + 1) % WORD - x, y + 1)
  {
  }

  lemma CongruentZero()
    ensures Congruent(0, 0)
  {
  }

  lemma WrapKeepsInv(r: Run, plain: seq<int>)
    requires RunInv(r) && r.vault.initialized
    ensures RunInv(Extend(r, Wrap(plain, true)))
  {
    var next := Extend(r, Wrap(plain, true));
    var n := |r.boxes|;
    forall a: nat | a < n && r.boxes[a].kek == r.vault.kek
      ensures Congruent(next.vault.counter - r.boxes[a].counter, n - a)
    {
      CongruentStep(r.boxes[a].counter, n - 1 - a, r.vault.counter);
    }
    CongruentZero();
    hide Congruent;
    assert next.boxes[n] == Box(r.vault.kek, next.vault.counter, plain);
  }

  lemma ExtendKeepsInv(r: Run, call: Call)
    requires RunInv(r) && (call.Init? ==> call.random !in r.drawn)
    ensures RunInv(Extend(r, call))
  {
    if call.Wrap? && r.vault.initialized && call.hasMemory {
      WrapKeepsInv(r, call.plain);
    } else {
      hide Congruent;
      assert Extend(r, call).boxes == r.boxes;
    }
  }

  lemma FreshPrefix(calls: seq<Call>)
    requires FreshDraws(calls) && calls != []
    ensures FreshDraws(calls[..|calls| - 1])
    ensures calls[|calls| - 1].Init? ==> calls[|calls| - 1].random !in After(calls[..|calls| - 1]).drawn
  {
    var prefix := calls[..|calls| - 1];
    forall i: nat | i < |prefix| && prefix[i].Init? ensures prefix[i].random !in After(prefix[..i]).drawn {
      assert prefix[..i] == calls[..i];
    }
  }

  lemma {:induction false} AfterInv(calls: seq<Call>)
    requires FreshDraws(calls)
    ensures RunInv(After(calls))
  {
    hide Extend, RunInv;
    if calls == [] {
      assert RunInv(Run(UNSET, [], {})) by {
        EmptyRunInv();
      }
    } else {
      var prefix := calls[..|calls| - 1];
      FreshPrefix(calls);
      AfterInv(prefix);
      ExtendKeepsInv(After(prefix), calls[|calls| - 1]);
    }
  }

  lemma EmptyRunInv()
    ensures RunInv(Run(UNSET, [], {}))
  {
  }

  lemma CongruentExactly(d: int, n: int)
    requires Congruent(d, n) && -WORD < d < WORD
    ensures d == 0 <==> n % WORD == 0
  {
    var k := (d - n) / WORD;
    assert d == n + WORD * k;
    if d == 0 {
      assert n == WORD * (-k);
    }
    if n % WORD == 0 {
      assert d == WORD * (n / WORD + k);
    }
  }

  lemma SameKeyExactly(r: Run, a: nat, b: nat)
    requires RunInv(r) && a < b < |r.boxes| && r.boxes[a].kek == r.boxes[b].kek
    ensures r.boxes[a].counter == r.boxes[b].counter <==> (b - a) % WORD == 0
  {
    var x, y := r.boxes[a], r.boxes[b];
    assert Congruent(y.counter - x.counter, b - a);
    hide Congruent, RunInv;
    CongruentExactly(y.counter - x.counter, b - a);
  }

  /** Two boxes of a run share key and nonce exactly when they were sealed under one key a multiple of 2^64 seals
      apart, the point at which the 64-bit counter has come round. */
  lemma NonceReuseExactly(calls: seq<Call>, a: nat, b: nat)
    requires FreshDraws(calls) && a < b < |After(calls).boxes|
    ensures var x, y := After(calls).boxes[a], After(calls).boxes[b];
            (x.kek, x.counter) == (y.kek, y.counter) <==> x.kek == y.kek && (b - a) % WORD == 0
  {
    AfterInv(calls);
    hide After, RunInv;
    if After(calls).boxes[a].kek == After(calls).boxes[b].kek {
      SameKeyExactly(After(calls), a, b);
    }
  }

  /** Below 2^64 seals no counter value serves twice under one key. */
  lemma NoNonceReuse(calls: seq<Call>, a: nat, b: nat)
    requires FreshDraws(calls) && a < b < |After(calls).boxes| <= WORD
    ensures var x, y := After(calls).boxes[a], After(calls).boxes[b];
            (x.kek, x.counter) != (y.kek, y.counter)
  {
    hide After;
    NonceReuseExactly(calls, a, b);
  }

  ghost predicate NoCleanup(calls: seq<Call>, from: nat) {
    forall i: nat | from <= i < |calls| :: !calls[i].Cleanup?
  }

  /** The key in use at call m is still in use after the whole sequence exactly when nothing was cleaned up since: a
      later key is another one. */
  lemma {:induction false} KeyHeldExactly(calls: seq<Call>, m: nat)
    requires FreshDraws(calls) && m < |calls| && After(calls[..m]).vault.initialized && !calls[m].Cleanup?
    ensures var v, w := After(calls[..m]).vault, After(calls).vault;
            && v.kek in After(calls).drawn
            && (w.initialized && w.kek == v.kek <==> NoCleanup(calls, m))
    decreases |calls|
  {
    hide FreshDraws, RunInv;
    var prefix, call := calls[..|calls| - 1], calls[|calls| - 1];
    assert FreshDraws(prefix) && (call.Init? ==> call.random !in After(prefix).drawn) by {
      FreshPrefix(calls);
    }
    if m == |prefix| {
      AfterInv(prefix);
      LiveKeyDrawn(After(prefix));
    } else {
      assert prefix[..m] == calls[..m];
      KeyHeldExactly(prefix, m);
      assert NoCleanup(calls, m) <==> NoCleanup(prefix, m) && !call.Cleanup? by {
        assert forall i: nat | i < |prefix| :: prefix[i] == calls[i];
      }
    }
  }

  lemma LiveKeyDrawn(r: Run)
    requires RunInv(r) && r.vault.initialized
    ensures r.vault.kek in r.drawn
  {
  }

  /** A box sealed by call m opens, after any further calls, with its secret exactly when nothing was cleaned up since
      and the nonce and the length given are its own. Each way of failing has its code. */
  lemma BoxOpensUntilCleanup(calls: seq<Call>, m: nat, length: nat, nonceCounter: nat)
    requires FreshDraws(calls) && m < |calls| && calls[m].Wrap? && Step(After(calls[..m]).vault, calls[m]).1.Some?
    ensures var box := Step(After(calls[..m]).vault, calls[m]).1.value;
            var v := After(calls).vault;
            Unwrap(v, box, length, nonceCounter)
            == if !v.initialized then (Internal, [])
               else if length < 16 then (BadInput, [])
               else if NoCleanup(calls, m) && nonceCounter == box.counter && length == |calls[m].plain| + 16 then
                 (Ok, calls[m].plain)
               else (BadSig, [])
    ensures NoCleanup(calls, m) ==> After(calls).vault.initialized
  {
    hide After, FreshDraws, NoCleanup;
    KeyHeldExactly(calls, m);
  }

  // ---------------------------------------------------------------- the counter

  function SealsUnder(boxes: seq<Box>, kek: nat): nat {
    if boxes == [] then 0
    else SealsUnder(boxes[..|boxes| - 1], kek) + if boxes[|boxes| - 1].kek == kek then 1 else 0
  }

  lemma {:induction false} NoSealsUnder(boxes: seq<Box>, kek: nat)
    requires forall a :: 0 <= a < |boxes| ==> boxes[a].kek != kek
    ensures SealsUnder(boxes, kek) == 0
  {
    if boxes != [] {
      NoSealsUnder(boxes[..|boxes| - 1], kek);
    }
  }

  lemma OneSealMore(boxes: seq<Box>, box: Box, kek: nat)
    ensures SealsUnder(boxes + [box], kek) == SealsUnder(boxes, kek) + if box.kek == kek then 1 else 0
  {
    assert (boxes + [box])[..|boxes|] == boxes;
  }

  ghost predicate Counted(r: Run) {
    r.vault.counter == if r.vault.initialized then SealsUnder(r.boxes, r.vault.kek) % WORD else 0
  }

  lemma ExtendCounted(r: Run, call: Call)
    requires Counted(r) && RunInv(r) && (call.Init? ==> call.random !in r.drawn)
    ensures Counted(Extend(r, call))
  {
    hide SealsUnder, RunInv;
    var after := Extend(r, call);
    match call
    case Init(random) =>
      assert after.boxes == r.boxes;
      if !r.vault.initialized {
        KeysDrawn(r);
        NoSealsUnder(r.boxes, random);
      }
    case Cleanup =>
    case Wrap(plain, hasMemory) =>
      if r.vault.initialized && hasMemory {
        OneSealMore(r.boxes, WrapStep(r.vault, plain, hasMemory).1.value, r.vault.kek);
        NextModWord(SealsUnder(r.boxes, r.vault.kek));
      } else {
        assert after.boxes == r.boxes;
      }
  }

  /** The counter says how often the live key has sealed, modulo 2^64: it starts at 0 with a new key, and each seal uses
      the value it is stepped to. */
  lemma {:induction false} CounterCountsSeals(calls: seq<Call>)
    requires FreshDraws(calls)
    ensures Counted(After(calls))
    ensures calls != [] && Step(After(calls[..|calls| - 1]).vault, calls[|calls| - 1]).1.Some? ==>
              After(calls).boxes != [] && After(calls).boxes[|After(calls).boxes| - 1].counter == After(calls).vault.counter
  {
    hide FreshDraws, RunInv, Counted;
    if calls == [] {
      assert Counted(Run(UNSET, [], {})) by {
        NothingCounted();
      }
    } else {
      FreshPrefix(calls);
      CounterCountsSeals(calls[..|calls| - 1]);
      AfterInv(calls[..|calls| - 1]);
      ExtendCounted(After(calls[..|calls| - 1]), calls[|calls| - 1]);
    }
  }

  lemma NothingCounted()
    ensures Counted(Run(UNSET, [], {}))
  {
  }

  lemma KeysDrawn(r: Run)
    requires RunInv(r)
    ensures forall a :: 0 <= a < |r.boxes| ==> r.boxes[a].kek in r.drawn
  {
  }

  lemma NextModWord(n: nat)
    ensures (n % WORD + 1) % WORD == (n + 1) % WORD
  {
  }
}
