/** The chunk checksum: MurmurHash3 x64 128 with seed zero, of which the caller keeps part
    of the first half.  Every stage is a permutation of the 128-bit state, so a change
    confined to one 16-byte block can never leave the final state as it was. */
module Checksum {

  import opened Bytes

  type word = bv64

  // ------------------------------------------------------------------ invertible steps
  //
  // Each primitive comes with its inverse.  The first lemma of a pair is about the
  // expression the primitive stands for, which the solver simplifies; the second is the
  // statement used elsewhere.

  function TimesC1(k: word): word { k * 0x87c37b91114253d5 }
  function OverC1(k: word): word { k * 0xa98409e882ce4d7d }
  function TimesC2(k: word): word { k * 0x4cf5ad432745937f }
  function OverC2(k: word): word { k * 0xa81e14edd9de2c7f }
  function TimesF1(k: word): word { k * 0xff51afd7ed558ccd }
  function OverF1(k: word): word { k * 0x4f74430c22a54005 }
  function TimesF2(k: word): word { k * 0xc4ceb9fe1a85ec53 }
  function OverF2(k: word): word { k * 0x9cb4b2f8129337db }
  function Times5(k: word): word { k * 5 }
  function Over5(k: word): word { k * 0xcccccccccccccccd }

  // `rotl64` at the amounts used, and at their complements
  function Rotl27(x: word): word { (x << 27) | (x >> 37) }
  function Rotl31(x: word): word { (x << 31) | (x >> 33) }
  function Rotl33(x: word): word { (x << 33) | (x >> 31) }
  function Rotl37(x: word): word { (x << 37) | (x >> 27) }

  function XorShift(k: word): word { k ^ (k >> 33) }
  function Xor(x: word, y: word): word { x ^ y }
  function Add(x: word, y: word): word { x + y }
  function Sub(x: word, y: word): word { x - y }

  lemma ProductsSimplify(k: word)
    ensures OverC1(k * 0x87c37b91114253d5) == k && TimesC1(k * 0xa98409e882ce4d7d) == k
    ensures OverC2(k * 0x4cf5ad432745937f) == k && TimesC2(k * 0xa81e14edd9de2c7f) == k
    ensures OverF1(k * 0xff51afd7ed558ccd) == k && TimesF1(k * 0x4f74430c22a54005) == k
    ensures OverF2(k * 0xc4ceb9fe1a85ec53) == k && TimesF2(k * 0x9cb4b2f8129337db) == k
    ensures Over5(k * 5) == k && Times5(k * 0xcccccccccccccccd) == k
  {
  }

  lemma Products(k: word)
    ensures OverC1(TimesC1(k)) == k && TimesC1(OverC1(k)) == k
    ensures OverC2(TimesC2(k)) == k && TimesC2(OverC2(k)) == k
    ensures OverF1(TimesF1(k)) == k && TimesF1(OverF1(k)) == k
    ensures OverF2(TimesF2(k)) == k && TimesF2(OverF2(k)) == k
    ensures Over5(Times5(k)) == k && Times5(Over5(k)) == k
  {
    ProductsSimplify(k);
  }

  lemma RotationsSimplify(x: word)
    ensures Rotl37((x << 27) | (x >> 37)) == x && Rotl27((x << 37) | (x >> 27)) == x
    ensures Rotl33((x << 31) | (x >> 33)) == x && Rotl31((x << 33) | (x >> 31)) == x
  {
  }

  lemma Rotations(x: word)
    ensures Rotl37(Rotl27(x)) == x && Rotl27(Rotl37(x)) == x
    ensures Rotl33(Rotl31(x)) == x && Rotl31(Rotl33(x)) == x
  {
    RotationsSimplify(x);
  }

  lemma SumsSimplify(x: word, y: word)
    ensures XorShift(x ^ (x >> 33)) == x && Xor(x ^ y, y) == x && Xor(x ^ y, x) == y
    ensures Sub(x + y, y) == x && Add(x - y, y) == x
  {
  }

  lemma Sums(x: word, y: word)
    ensures XorShift(XorShift(x)) == x && Xor(Xor(x, y), y) == x && Xor(Xor(x, y), x) == y
    ensures Sub(Add(x, y), y) == x && Add(Sub(x, y), y) == x
  {
    SumsSimplify(x, y);
  }

  // ------------------------------------------------------------------ fmix

  function Fmix(k: word): word {
    XorShift(TimesF2(XorShift(TimesF1(XorShift(k)))))
  }

  function Unfmix(k: word): word {
    XorShift(OverF1(XorShift(OverF2(XorShift(k)))))
  }

  /** `fmix` is a bijection on 64 bits. */
  lemma FmixBijective(k: word)
    ensures Unfmix(Fmix(k)) == k && Fmix(Unfmix(k)) == k
  {
    var a := XorShift(k);
    var b := XorShift(TimesF1(a));
    Sums(k, 0);
    Sums(TimesF1(a), 0);
    Sums(TimesF2(b), 0);
    Products(a);
    Products(b);
    var c := XorShift(OverF2(a));
    Sums(OverF2(a), 0);
    Sums(OverF1(c), 0);
    Products(c);
  }

  // ------------------------------------------------------------------ one block

  datatype State = State(h1: word, h2: word)

  function Mix1(k: word): word { TimesC2(Rotl31(TimesC1(k))) }
  function Unmix1(k: word): word { OverC1(Rotl33(OverC2(k))) }
  function Mix2(k: word): word { TimesC1(Rotl33(TimesC2(k))) }
  function Unmix2(k: word): word { OverC2(Rotl31(OverC1(k))) }

  lemma Mixing(k: word)
    ensures Unmix1(Mix1(k)) == k && Unmix2(Mix2(k)) == k
  {
    Products(k);
    Rotations(TimesC1(k));
    Rotations(TimesC2(k));
    Products(Rotl31(TimesC1(k)));
    Products(Rotl33(TimesC2(k)));
  }

  /** The body of the loop. */
  function Step(st: State, k1: word, k2: word): State {
    var h1 := Add(Times5(Add(Rotl27(Xor(st.h1, Mix1(k1))), st.h2)), 0x52dce729);
    var h2 := Add(Times5(Add(Rotl31(Xor(st.h2, Mix2(k2))), h1)), 0x38495ab5);
    State(h1, h2)
  }

  function Unstep(st: State, k1: word, k2: word): State {
    var h2 := Xor(Rotl33(Sub(Over5(Sub(st.h2, 0x38495ab5)), st.h1)), Mix2(k2));
    var h1 := Xor(Rotl37(Sub(Over5(Sub(st.h1, 0x52dce729)), h2)), Mix1(k1));
    State(h1, h2)
  }

  /** The block that leads from one state to the next. */
  function BlockBetween(st: State, next: State): (word, word) {
    var k1 := Unmix1(Xor(Rotl37(Sub(Over5(Sub(next.h1, 0x52dce729)), st.h2)), st.h1));
    var k2 := Unmix2(Xor(Rotl33(Sub(Over5(Sub(next.h2, 0x38495ab5)), next.h1)), st.h2));
    (k1, k2)
  }

  lemma Linear(x: word, y: word, c: word)
    ensures Sub(Over5(Sub(Add(Times5(Add(x, y)), c), c)), y) == x
    ensures Add(Times5(Add(Sub(Over5(Sub(x, c)), y), y)), c) == x
  {
    Sums(Times5(Add(x, y)), c);
    Products(Add(x, y));
    Sums(x, y);
    Sums(Over5(Sub(x, c)), y);
    Products(Sub(x, c));
    Sums(x, c);
  }

  /** Each body step can be undone in the state, and reveals its block. */
  lemma StepInvertible(st: State, k1: word, k2: word)
    ensures Unstep(Step(st, k1, k2), k1, k2) == st
    ensures BlockBetween(st, Step(st, k1, k2)) == (k1, k2)
  {
    var next := Step(st, k1, k2);
    var a, b := Xor(st.h1, Mix1(k1)), Xor(st.h2, Mix2(k2));
    Linear(Rotl27(a), st.h2, 0x52dce729);
    Linear(Rotl31(b), next.h1, 0x38495ab5);
    Rotations(a);
    Rotations(b);
    Sums(st.h1, Mix1(k1));
    Sums(st.h2, Mix2(k2));
    Mixing(k1);
    Mixing(k2);
  }

  /** Every state is the result of a step with any given block. */
  lemma StepOnto(st: State, k1: word, k2: word)
    ensures Step(Unstep(st, k1, k2), k1, k2) == st
  {
    var a, b := Sub(Over5(Sub(st.h2, 0x38495ab5)), st.h1), Unstep(st, k1, k2).h2;
    var c := Sub(Over5(Sub(st.h1, 0x52dce729)), b);
    Sums(Rotl33(a), Mix2(k2));
    Sums(Rotl37(c), Mix1(k1));
    Rotations(a);
    Rotations(c);
    Linear(st.h1, b, 0x52dce729);
    Linear(st.h2, st.h1, 0x38495ab5);
  }

  // ------------------------------------------------------------------ finalization

  function Finalize(st: State, len: word): State {
    var a := Add(Xor(st.h1, len), Xor(st.h2, len));
    var b := Add(Xor(st.h2, len), a);
    var h1 := Add(Fmix(a), Fmix(b));
    State(h1, Add(Fmix(b), h1))
  }

  function Unfinalize(st: State, len: word): State {
    var fb := Sub(st.h2, st.h1);
    var a, b := Unfmix(Sub(st.h1, fb)), Unfmix(fb);
    var y := Sub(b, a);
    State(Xor(Sub(a, y), len), Xor(y, len))
  }

  /** Finalization loses nothing. */
  lemma FinalizeInvertible(st: State, len: word)
    ensures Unfinalize(Finalize(st, len), len) == st
  {
    var x, y := Xor(st.h1, len), Xor(st.h2, len);
    var a := Add(x, y);
    var b := Add(y, a);
    Sums(Fmix(b), Add(Fmix(a), Fmix(b)));
    Sums(Fmix(a), Fmix(b));
    FmixBijective(a);
    FmixBijective(b);
    Sums(y, a);
    Sums(x, y);
    Sums(st.h1, len);
    Sums(st.h2, len);
  }

  // ------------------------------------------------------------------ buffers

  type octet = bv8

  /** Eight bytes as a little-endian word. */
  function Pack(b0: octet, b1: octet, b2: octet, b3: octet, b4: octet, b5: octet, b6: octet, b7: octet): word {
    (b0 as word) ^ ((b1 as word) << 8) ^ ((b2 as word) << 16) ^ ((b3 as word) << 24)
    ^ ((b4 as word) << 32) ^ ((b5 as word) << 40) ^ ((b6 as word) << 48) ^ ((b7 as word) << 56)
  }

  lemma PackInjective(a0: octet, a1: octet, a2: octet, a3: octet, a4: octet, a5: octet, a6: octet, a7: octet,
                      b0: octet, b1: octet, b2: octet, b3: octet, b4: octet, b5: octet, b6: octet, b7: octet)
    requires Pack(a0, a1, a2, a3, a4, a5, a6, a7) == Pack(b0, b1, b2, b3, b4, b5, b6, b7)
    ensures a0 == b0 && a1 == b1 && a2 == b2 && a3 == b3 && a4 == b4 && a5 == b5 && a6 == b6 && a7 == b7
  {
  }

  /** The byte at i, zero past the end. */
  function OctetAt(data: seq<octet>, i: nat): octet {
    if i < |data| then data[i] else 0
  }

  function Load(data: seq<octet>, p: nat): word {
    Pack(OctetAt(data, p), OctetAt(data, p + 1), OctetAt(data, p + 2), OctetAt(data, p + 3),
         OctetAt(data, p + 4), OctetAt(data, p + 5), OctetAt(data, p + 6), OctetAt(data, p + 7))
  }

  // ------------------------------------------------------------------ any such hash

  /** A hash made of a step per block, a step for the closing bytes and a last step. */
  datatype Scheme = Scheme(step: (State, word, word) -> State,
                           tail: (State, word, word, nat) -> State,
                           finish: (State, word) -> State)

  /** No part of the scheme merges two states, and the steps merge no two blocks.
      The closing step sees its second word only from nine bytes on.  Sealed, see Unseal. */
  ghost predicate Reversible(s: Scheme) {
    forall k {:trigger Unseal(k)} :: Unseal(k) ==> Parts(s)
  }

  ghost predicate Parts(s: Scheme) {
    && (forall st, st', k1, k2 :: st != st' ==> s.step(st, k1, k2) != s.step(st', k1, k2))
    && (forall st, k1, k2, k1', k2' :: k1 != k1' || k2 != k2' ==> s.step(st, k1, k2) != s.step(st, k1', k2'))
    && (forall st, st', k1, k2, n: nat :: st != st' ==> s.tail(st, k1, k2, n) != s.tail(st', k1, k2, n))
    && (forall st, k1, k2, k1', k2', n: nat :: (k1 != k1' && n >= 1) || (k2 != k2' && n >= 9) ==>
          s.tail(st, k1, k2, n) != s.tail(st, k1', k2', n))
    && (forall st, st', len :: st != st' ==> s.finish(st, len) != s.finish(st', len))
  }

  lemma StatesPart(s: Scheme, st: State, st': State, k1: word, k2: word)
    requires Reversible(s) && st != st'
    ensures s.step(st, k1, k2) != s.step(st', k1, k2)
  {
    assert Unseal(0);
  }

  lemma BlocksPart(s: Scheme, st: State, k1: word, k2: word, k1': word, k2': word)
    requires Reversible(s) && (k1 != k1' || k2 != k2')
    ensures s.step(st, k1, k2) != s.step(st, k1', k2')
  {
    assert Unseal(0);
  }

  /** The state after the first n blocks of a stream of words. */
  function Body(s: Scheme, w: nat -> word, n: nat): State {
    if n == 0 then State(0, 0) else s.step(Body(s, w, n - 1), w(2 * (n - 1)), w(2 * (n - 1) + 1))
  }

  /** The state after n blocks and r more bytes. */
  function RunWords(s: Scheme, w: nat -> word, n: nat, r: nat, len: word): State {
    s.finish(s.tail(Body(s, w, n), w(2 * n), w(2 * n + 1), r), len)
  }

  lemma {:induction false} BodySame(s: Scheme, w: nat -> word, w': nat -> word, n: nat)
    requires forall i :: 0 <= i < 2 * n ==> w(i) == w'(i)
    ensures Body(s, w, n) == Body(s, w', n)
  {
    if n > 0 {
      BodySame(s, w, w', n - 1);
    }
  }

  lemma {:induction false} BodyDiffers(s: Scheme, w: nat -> word, w': nat -> word, j: nat, n: nat)
    requires Reversible(s) && j < n
    requires forall i :: 0 <= i < 2 * n && i != 2 * j && i != 2 * j + 1 ==> w(i) == w'(i)
    requires w(2 * j) != w'(2 * j) || w(2 * j + 1) != w'(2 * j + 1)
    ensures Body(s, w, n) != Body(s, w', n)
  {
    var i: nat := 2 * (n - 1);
    var st, st' := Body(s, w, n - 1), Body(s, w', n - 1);
    if j == n - 1 {
      BodySame(s, w, w', n - 1);
      BlocksPart(s, st, w(i), w(i + 1), w'(i), w'(i + 1));
    } else {
      BodyDiffers(s, w, w', j, n - 1);
      assert w(i) == w'(i) && w(i + 1) == w'(i + 1);
      StatesPart(s, st, st', w(i), w(i + 1));
    }
  }

  /** Two streams of n blocks and r more bytes that differ in block j only. */
  ghost predicate StreamsDiffer(w: nat -> word, w': nat -> word, j: nat, n: nat, r: nat) {
    forall k {:trigger Unseal(k)} :: Unseal(k) ==>
      && j <= n
      && (forall i :: 0 <= i < 2 * n + 2 && i != 2 * j && i != 2 * j + 1 ==> w(i) == w'(i))
      && (w(2 * j) != w'(2 * j) || w(2 * j + 1) != w'(2 * j + 1))
      && (j == n ==> (w(2 * n) != w'(2 * n) && r >= 1) || (w(2 * n + 1) != w'(2 * n + 1) && r >= 9))
  }

  /** Streams that differ in one block, or only in the closing bytes, end apart. */
  lemma WordsShow(s: Scheme, w: nat -> word, w': nat -> word, j: nat, n: nat, r: nat, len: word)
    requires Reversible(s) && StreamsDiffer(w, w', j, n, r)
    ensures RunWords(s, w, n, r, len) != RunWords(s, w', n, r, len)
  {
    assert Unseal(0);
    if j < n {
      BodyDiffers(s, w, w', j, n);
    } else {
      BodySame(s, w, w', n);
    }
  }

  // ------------------------------------------------------------------ buffers as words

  /** A length as a 64-bit word, which wraps. */
  function CountTo(n: nat): word {
    if n == 0 then 0 else Inc(CountTo(n - 1))
  }

  function Inc(x: word): word { x + 1 }

  function Length(data: seq<octet>): word {
    CountTo(|data|)
  }

  function Words(data: seq<octet>): nat -> word {
    (i: nat) => Load(data, 8 * i)
  }

  function Run(s: Scheme, data: seq<octet>): State {
    RunWords(s, Words(data), |data| / 16, |data| % 16, Length(data))
  }

  lemma LoadSame(data: seq<octet>, data': seq<octet>, p: nat)
    requires forall i :: p <= i < p + 8 ==> OctetAt(data, i) == OctetAt(data', i)
    ensures Load(data, p) == Load(data', p)
  {
  }

  lemma LoadInjective(data: seq<octet>, data': seq<octet>, p: nat)
    requires Load(data, p) == Load(data', p)
    ensures forall i :: p <= i < p + 8 ==> OctetAt(data, i) == OctetAt(data', i)
  {
    PackInjective(OctetAt(data, p), OctetAt(data, p + 1), OctetAt(data, p + 2), OctetAt(data, p + 3),
                  OctetAt(data, p + 4), OctetAt(data, p + 5), OctetAt(data, p + 6), OctetAt(data, p + 7),
                  OctetAt(data', p), OctetAt(data', p + 1), OctetAt(data', p + 2), OctetAt(data', p + 3),
                  OctetAt(data', p + 4), OctetAt(data', p + 5), OctetAt(data', p + 6), OctetAt(data', p + 7));
    forall i | p <= i < p + 8
      ensures OctetAt(data, i) == OctetAt(data', i)
    {
      assert i == p || i == p + 1 || i == p + 2 || i == p + 3 || i == p + 4 || i == p + 5 || i == p + 6 || i == p + 7;
    }
  }

  /** Two buffers of one length that differ inside block j (the last, shorter one
      included) and nowhere else. */
  ghost predicate DifferInBlock(data: seq<octet>, data': seq<octet>, j: nat) {
    && |data| == |data'|
    && (forall i :: 0 <= i < 16 * j || 16 * j + 16 <= i ==> OctetAt(data, i) == OctetAt(data', i))
    && (exists i :: 16 * j <= i < 16 * j + 16 && OctetAt(data, i) != OctetAt(data', i))
  }

  /** Word i is the same unless it belongs to block j. */
  lemma WordSame(data: seq<octet>, data': seq<octet>, j: nat, i: nat)
    requires DifferInBlock(data, data', j) && i != 2 * j && i != 2 * j + 1
    ensures Words(data)(i) == Words(data')(i)
  {
    LoadSame(data, data', 8 * i);
  }

  /** One of the two words of the block differs, and if the block is not full, one that
      the closing step uses. */
  lemma WordsDiffer(data: seq<octet>, data': seq<octet>, j: nat)
    requires DifferInBlock(data, data', j)
    ensures || (Words(data)(2 * j) != Words(data')(2 * j) && |data| > 16 * j)
            || (Words(data)(2 * j + 1) != Words(data')(2 * j + 1) && |data| > 16 * j + 8)
  {
    var p := 16 * j;
    var q := p + 8;
    var i :| p <= i < p + 16 && OctetAt(data, i) != OctetAt(data', i);
    assert i < |data|;
    assert Words(data)(2 * j) == Load(data, p) && Words(data')(2 * j) == Load(data', p);
    assert Words(data)(2 * j + 1) == Load(data, q) && Words(data')(2 * j + 1) == Load(data', q);
    if i < q {
      if Load(data, p) == Load(data', p) {
        LoadInjective(data, data', p);
        assert false;
      }
    } else if Load(data, q) == Load(data', q) {
      LoadInjective(data, data', q);
      assert false;
    }
  }

  lemma BuffersAsStreams(data: seq<octet>, data': seq<octet>, j: nat)
    requires DifferInBlock(data, data', j)
    ensures StreamsDiffer(Words(data), Words(data'), j, |data| / 16, |data| % 16)
  {
    WordsDiffer(data, data', j);
    forall i | 0 <= i && i != 2 * j && i != 2 * j + 1
      ensures Words(data)(i) == Words(data')(i)
    {
      WordSame(data, data', j, i);
    }
  }

  // ------------------------------------------------------------------ this hash

  /** What n < 16 closing bytes, gathered in two words, do to the state. */
  function TailStep(st: State, k1: word, k2: word, n: nat): State {
    State(if n >= 1 then Xor(st.h1, Mix1(k1)) else st.h1,
          if n >= 9 then Xor(st.h2, Mix2(k2)) else st.h2)
  }

  const MURMUR: Scheme := Scheme(Step, TailStep, Finalize)

  function Digest(data: seq<octet>): State {
    Run(MURMUR, data)
  }

  lemma StepApart(st: State, st': State, k1: word, k2: word)
    requires st != st'
    ensures Step(st, k1, k2) != Step(st', k1, k2)
  {
    StepInvertible(st, k1, k2);
    StepInvertible(st', k1, k2);
  }

  lemma BlocksApart(st: State, k1: word, k2: word, k1': word, k2': word)
    requires k1 != k1' || k2 != k2'
    ensures Step(st, k1, k2) != Step(st, k1', k2')
  {
    StepInvertible(st, k1, k2);
    StepInvertible(st, k1', k2');
  }

  lemma TailStatesApart(st: State, st': State, k1: word, k2: word, n: nat)
    requires st != st'
    ensures TailStep(st, k1, k2, n) != TailStep(st', k1, k2, n)
  {
    Sums(st.h1, Mix1(k1));
    Sums(st'.h1, Mix1(k1));
    Sums(st.h2, Mix2(k2));
    Sums(st'.h2, Mix2(k2));
  }

  lemma TailWordsApart(st: State, k1: word, k2: word, k1': word, k2': word, n: nat)
    requires (k1 != k1' && n >= 1) || (k2 != k2' && n >= 9)
    ensures TailStep(st, k1, k2, n) != TailStep(st, k1', k2', n)
  {
    Sums(st.h1, Mix1(k1));
    Sums(st.h1, Mix1(k1'));
    Sums(st.h2, Mix2(k2));
    Sums(st.h2, Mix2(k2'));
    Mixing(k1);
    Mixing(k1');
    Mixing(k2);
    Mixing(k2');
  }

  lemma FinishApart(st: State, st': State, len: word)
    requires st != st'
    ensures Finalize(st, len) != Finalize(st', len)
  {
    FinalizeInvertible(st, len);
    FinalizeInvertible(st', len);
  }

  lemma MurmurReversible()
    ensures Reversible(MURMUR)
  {
    forall st, st', k1, k2 | st != st'
      ensures MURMUR.step(st, k1, k2) != MURMUR.step(st', k1, k2)
    {
      StepApart(st, st', k1, k2);
    }
    forall st, k1, k2, k1', k2' | k1 != k1' || k2 != k2'
      ensures MURMUR.step(st, k1, k2) != MURMUR.step(st, k1', k2')
    {
      BlocksApart(st, k1, k2, k1', k2');
    }
    forall st, st', k1, k2, n: nat | st != st'
      ensures MURMUR.tail(st, k1, k2, n) != MURMUR.tail(st', k1, k2, n)
    {
      TailStatesApart(st, st', k1, k2, n);
    }
    forall st, k1, k2, k1', k2', n: nat | (k1 != k1' && n >= 1) || (k2 != k2' && n >= 9)
      ensures MURMUR.tail(st, k1, k2, n) != MURMUR.tail(st, k1', k2', n)
    {
      TailWordsApart(st, k1, k2, k1', k2', n);
    }
    forall st, st', len | st != st'
      ensures MURMUR.finish(st, len) != MURMUR.finish(st', len)
    {
      FinishApart(st, st', len);
    }
  }

  /** Buffers of any equal length that differ in exactly one block end in different
      128-bit states. */
  lemma OneBlockShows(data: seq<octet>, data': seq<octet>, j: nat)
    requires DifferInBlock(data, data', j)
    ensures Digest(data) != Digest(data')
  {
    MurmurReversible();
    BuffersAsStreams(data, data', j);
    WordsShow(MURMUR, Words(data), Words(data'), j, |data| / 16, |data| % 16, Length(data));
  }

  // ------------------------------------------------------------------ the length

  lemma LengthsSimplify(x: word)
    ensures Xor(x, 0) == x && Mix1(0) == 0 && Mix2(0) == 0
  {
  }

  /** The length enters both halves before they are mixed. */
  lemma FinalizeMasks(st: State, len: word)
    ensures Finalize(st, len) == Finalize(State(Xor(st.h1, len), Xor(st.h2, len)), 0)
  {
    LengthsSimplify(Xor(st.h1, len));
    LengthsSimplify(Xor(st.h2, len));
  }

  /** Two lengths never take one state to the same end. */
  lemma LengthsApart(st: State, len: word, len': word)
    requires len != len'
    ensures Finalize(st, len) != Finalize(st, len')
  {
    FinalizeMasks(st, len);
    FinalizeMasks(st, len');
    FinalizeInvertible(State(Xor(st.h1, len), Xor(st.h2, len)), 0);
    FinalizeInvertible(State(Xor(st.h1, len'), Xor(st.h2, len')), 0);
    Sums(st.h1, len);
    Sums(st.h1, len');
  }

  lemma CountingSimplify(x: word)
    ensures Inc(x) == x + 1 && Inc(x + 1) == x + 2 && Inc(x + 2) == x + 3 && Inc(x + 3) == x + 4
    ensures Inc(x + 4) == x + 5 && Inc(x + 5) == x + 6 && Inc(x + 6) == x + 7 && Inc(x + 7) == x + 8
    ensures Inc(x + 8) == x + 9 && Inc(x + 9) == x + 10 && Inc(x + 10) == x + 11 && Inc(x + 11) == x + 12
    ensures Inc(x + 12) == x + 13 && Inc(x + 13) == x + 14 && Inc(x + 14) == x + 15
  {
  }

  lemma DistancesSimplify(x: word)
    ensures x + 1 != x && x + 2 != x && x + 3 != x && x + 4 != x && x + 5 != x && x + 6 != x && x + 7 != x && x + 8 != x
    ensures x + 9 != x && x + 10 != x && x + 11 != x && x + 12 != x && x + 13 != x && x + 14 != x && x + 15 != x
  {
  }

  /** x counted up by z. */
  function Plus(x: word, z: nat): word {
    if z == 0 then x else Inc(Plus(x, z - 1))
  }

  lemma {:induction false} CountOn(n: nat, z: nat)
    ensures CountTo(n + z) == Plus(CountTo(n), z)
    decreases z
  {
    if z > 0 {
      CountOn(n, z - 1);
    }
  }

  lemma PlusSmall(x: word, z: nat)
    requires 0 < z < 16
    ensures Plus(x, z) != x
  {
    CountingSimplify(x);
    DistancesSimplify(x);
    assert Plus(x, 1) == x + 1 && Plus(x, 2) == x + 2 && Plus(x, 3) == x + 3 && Plus(x, 4) == x + 4;
    assert Plus(x, 5) == x + 5 && Plus(x, 6) == x + 6 && Plus(x, 7) == x + 7 && Plus(x, 8) == x + 8;
    assert Plus(x, 9) == x + 9 && Plus(x, 10) == x + 10 && Plus(x, 11) == x + 11 && Plus(x, 12) == x + 12;
    assert Plus(x, 13) == x + 13 && Plus(x, 14) == x + 14 && Plus(x, 15) == x + 15;
  }

  /** A few bytes more or less make another length. */
  lemma CountsApart(n: nat, z: nat)
    requires 0 < z < 16
    ensures CountTo(n) != CountTo(n + z)
  {
    CountOn(n, z);
    PlusSmall(CountTo(n), z);
  }

  function Zeros(z: nat): (r: seq<octet>)
    ensures |r| == z && forall i :: 0 <= i < z ==> r[i] == 0
  {
    seq(z, i => 0)
  }

  /** Closing words that are zero leave the state alone. */
  lemma TailOfZeros(st: State, k1: word, k2: word, n: nat, n': nat)
    requires n <= n' && (n < 1 <= n' ==> k1 == 0) && (n < 9 <= n' ==> k2 == 0)
    ensures TailStep(st, k1, k2, n) == TailStep(st, k1, k2, n')
  {
    LengthsSimplify(st.h1);
    LengthsSimplify(st.h2);
  }

  lemma LoadPastEnd(data: seq<octet>, p: nat)
    requires |data| <= p
    ensures Load(data, p) == 0
  {
    assert Pack(0, 0, 0, 0, 0, 0, 0, 0) == 0;
  }

  /** The words do not show that a buffer was padded with zeros. */
  lemma WordsPadded(data: seq<octet>, z: nat, i: nat)
    ensures Words(data)(i) == Words(data + Zeros(z))(i)
  {
    LoadSame(data, data + Zeros(z), 8 * i);
  }

  /** The closing step ignores words of zeros, and the last step tells lengths apart. */
  ghost predicate Measures(s: Scheme) {
    && (forall st, k1, k2, n: nat, n': nat :: n <= n' && (n < 1 <= n' ==> k1 == 0) && (n < 9 <= n' ==> k2 == 0) ==>
          s.tail(st, k1, k2, n) == s.tail(st, k1, k2, n'))
    && (forall st, len, len' :: len != len' ==> s.finish(st, len) != s.finish(st, len'))
  }

  lemma MurmurMeasures()
    ensures Measures(MURMUR)
  {
    forall st, k1, k2, n: nat, n': nat | n <= n' && (n < 1 <= n' ==> k1 == 0) && (n < 9 <= n' ==> k2 == 0)
      ensures MURMUR.tail(st, k1, k2, n) == MURMUR.tail(st, k1, k2, n')
    {
      TailOfZeros(st, k1, k2, n, n');
    }
    forall st, len, len' | len != len'
      ensures MURMUR.finish(st, len) != MURMUR.finish(st, len')
    {
      LengthsApart(st, len, len');
    }
  }

  /** The state before the length comes in. */
  function Unfinished(s: Scheme, data: seq<octet>): State {
    var w, n := Words(data), |data| / 16;
    s.tail(Body(s, w, n), w(2 * n), w(2 * n + 1), |data| % 16)
  }

  lemma UnfinishedPadded(s: Scheme, data: seq<octet>, z: nat)
    requires Measures(s) && |data| % 16 + z < 16
    ensures Unfinished(s, data) == Unfinished(s, data + Zeros(z))
  {
    var data' := data + Zeros(z);
    var w, w', n, r := Words(data), Words(data'), |data| / 16, |data| % 16;
    assert |data'| / 16 == n && |data'| % 16 == r + z;
    forall i: nat
      ensures w(i) == w'(i)
    {
      WordsPadded(data, z, i);
    }
    BodySame(s, w, w', n);
    ClosingWords(data);
  }

  lemma PaddedRuns(s: Scheme, data: seq<octet>, z: nat)
    requires Measures(s) && 0 < z && |data| % 16 + z < 16
    ensures Run(s, data) != Run(s, data + Zeros(z))
  {
    var data' := data + Zeros(z);
    UnfinishedPadded(s, data, z);
    CountsApart(|data|, z);
    var st, len, len' := Unfinished(s, data), Length(data), Length(data');
    assert s.finish(st, len) != s.finish(st, len');
    RunEnds(s, data);
    RunEnds(s, data');
  }

  lemma RunEnds(s: Scheme, data: seq<octet>)
    ensures Run(s, data) == s.finish(Unfinished(s, data), Length(data))
  {
  }

  /** The length does: a buffer padded with zeros inside its last, unfinished block ends in
      a different state. */
  lemma PaddingShows(data: seq<octet>, z: nat)
    requires 0 < z && |data| % 16 + z < 16
    ensures Digest(data) != Digest(data + Zeros(z))
  {
    MurmurMeasures();
    PaddedRuns(MURMUR, data, z);
  }

  lemma ClosingWords(data: seq<octet>)
    ensures var n, r := |data| / 16, |data| % 16;
            (r < 1 ==> Words(data)(2 * n) == 0) && (r < 9 ==> Words(data)(2 * n + 1) == 0)
  {
    var n, r := |data| / 16, |data| % 16;
    if r < 1 {
      LoadPastEnd(data, 16 * n);
    }
    if r < 9 {
      LoadPastEnd(data, 16 * n + 8);
    }
  }

  // ------------------------------------------------------------------ two values

  /** The parts of a run, one after the other. */
  lemma RunParts(s: Scheme, data: seq<octet>, h: State, k1: word, k2: word, r: nat, t: State, len: word, f: State)
    requires h == Body(s, Words(data), |data| / 16) && r == |data| % 16 && len == Length(data)
    requires k1 == Words(data)(2 * (|data| / 16)) && k2 == Words(data)(2 * (|data| / 16) + 1)
    requires t == s.tail(h, k1, k2, r) && f == s.finish(t, len)
    ensures Run(s, data) == f
  {
  }

  lemma ZeroStates()
    ensures MURMUR.tail(State(0, 0), 0, 0, 1) == State(0, 0)
    ensures MURMUR.finish(State(0, 0), 1) == State(0x4610abe56eff5cb5, 0x51622daa78f83583)
  {
    LengthsSimplify(0);
  }

  lemma ZeroWords(data: seq<octet>)
    requires data == [0]
    ensures Words(data)(0) == 0 && Words(data)(1) == 0 && Length(data) == 1
  {
    assert Load(data, 0) == Pack(0, 0, 0, 0, 0, 0, 0, 0) == 0;
    LoadPastEnd(data, 8);
    assert CountTo(1) == 1;
  }

  /** A single zero byte: only its length tells it from nothing. */
  lemma DigestOfZero()
    ensures Digest([0]) == State(0x4610abe56eff5cb5, 0x51622daa78f83583)
  {
    var data := [0];
    ZeroWords(data);
    ZeroStates();
    RunParts(MURMUR, data, State(0, 0), 0, 0, 1, State(0, 0), 1, State(0x4610abe56eff5cb5, 0x51622daa78f83583));
  }

  function Sample(): seq<octet> {
    [1, 2, 3, 4, 5, 6, 7, 8, 9, 10, 11, 12, 13, 14, 15, 16, 17, 18, 19, 20, 21, 22, 23, 24, 25, 26, 27, 28, 29, 30, 31]
  }

  lemma SamplePacked()
    ensures Pack(1, 2, 3, 4, 5, 6, 7, 8) == 0x0807060504030201
    ensures Pack(9, 10, 11, 12, 13, 14, 15, 16) == 0x100f0e0d0c0b0a09
  {
  }

  lemma SampleBlock(data: seq<octet>)
    requires data == Sample()
    ensures Load(data, 0) == 0x0807060504030201 && Load(data, 8) == 0x100f0e0d0c0b0a09
  {
    SamplePacked();
    assert data[0] == 1 && data[1] == 2 && data[2] == 3 && data[3] == 4;
    assert data[4] == 5 && data[5] == 6 && data[6] == 7 && data[7] == 8;
    assert data[8] == 9 && data[9] == 10 && data[10] == 11 && data[11] == 12;
    assert data[12] == 13 && data[13] == 14 && data[14] == 15 && data[15] == 16;
  }

  lemma SampleTail(data: seq<octet>)
    requires data == Sample()
    ensures Load(data, 16) == 0x1817161514131211 && Load(data, 24) == 0x001f1e1d1c1b1a19
  {
    assert Load(data, 16) == Pack(17, 18, 19, 20, 21, 22, 23, 24);
    assert Load(data, 24) == Pack(25, 26, 27, 28, 29, 30, 31, 0);
  }

  lemma SampleLength(data: seq<octet>)
    requires |data| == 31
    ensures Length(data) == 31
  {
    assert CountTo(10) == 10;
    assert CountTo(20) == 20;
    assert CountTo(30) == 30;
  }

  lemma SampleStates()
    ensures MURMUR.step(State(0, 0), 0x0807060504030201, 0x100f0e0d0c0b0a09)
         == State(0x178124fd7f939672, 0x561de10afd457487)
    ensures MURMUR.tail(State(0x178124fd7f939672, 0x561de10afd457487), 0x1817161514131211, 0x001f1e1d1c1b1a19, 15)
         == State(0x490960e04b4c3d69, 0xd65ae983745b13e1)
    ensures MURMUR.finish(State(0x490960e04b4c3d69, 0xd65ae983745b13e1), 31)
         == State(0xe67d62e397513ddb, 0x2b46270af0ee6ef6)
  {
  }

  lemma OneBlock(s: Scheme, data: seq<octet>)
    requires |data| / 16 == 1
    ensures Body(s, Words(data), 1) == s.step(State(0, 0), Load(data, 0), Load(data, 8))
    ensures Words(data)(2) == Load(data, 16) && Words(data)(3) == Load(data, 24)
  {
    assert Words(data)(0) == Load(data, 0) && Words(data)(1) == Load(data, 8);
  }

  /** Thirty-one bytes: one block and the longest closing part. */
  lemma DigestOfSample()
    ensures Digest(Sample()) == State(0xe67d62e397513ddb, 0x2b46270af0ee6ef6)
  {
    var data := Sample();
    SampleBlock(data);
    SampleTail(data);
    SampleLength(data);
    SampleStates();
    OneBlock(MURMUR, data);
    RunParts(MURMUR, data, State(0x178124fd7f939672, 0x561de10afd457487), 0x1817161514131211, 0x001f1e1d1c1b1a19, 15,
             State(0x490960e04b4c3d69, 0xd65ae983745b13e1), 31, State(0xe67d62e397513ddb, 0x2b46270af0ee6ef6));
  }

  // ------------------------------------------------------------------ the loop

  /** The tail bytes, gathered by falling through the cases from the longest. */
  method TailWords(data: seq<octet>, p: nat) returns (k1: word, k2: word)
    requires p <= |data| < p + 16
    ensures k1 == Load(data, p) && k2 == Load(data, p + 8)
  {
    var n := |data| - p;
    k1, k2 := 0, 0;
    if n >= 15 { k2 := k2 ^ ((data[p + 14] as word) << 48); }
    if n >= 14 { k2 := k2 ^ ((data[p + 13] as word) << 40); }
    if n >= 13 { k2 := k2 ^ ((data[p + 12] as word) << 32); }
    if n >= 12 { k2 := k2 ^ ((data[p + 11] as word) << 24); }
    if n >= 11 { k2 := k2 ^ ((data[p + 10] as word) << 16); }
    if n >= 10 { k2 := k2 ^ ((data[p + 9] as word) << 8); }
    if n >= 9 { k2 := k2 ^ ((data[p + 8] as word) << 0); }
    if n >= 8 { k1 := k1 ^ ((data[p + 7] as word) << 56); }
    if n >= 7 { k1 := k1 ^ ((data[p + 6] as word) << 48); }
    if n >= 6 { k1 := k1 ^ ((data[p + 5] as word) << 40); }
    if n >= 5 { k1 := k1 ^ ((data[p + 4] as word) << 32); }
    if n >= 4 { k1 := k1 ^ ((data[p + 3] as word) << 24); }
    if n >= 3 { k1 := k1 ^ ((data[p + 2] as word) << 16); }
    if n >= 2 { k1 := k1 ^ ((data[p + 1] as word) << 8); }
    if n >= 1 { k1 := k1 ^ ((data[p] as word) << 0); }
  }

  // The three parts of the loop's state machine, sealed.
  ghost predicate Stepped(s: Scheme, h1: word, h2: word, k1: word, k2: word, h1': word, h2': word) {
    forall k {:trigger Unseal(k)} :: Unseal(k) ==> State(h1', h2') == s.step(State(h1, h2), k1, k2)
  }

  ghost predicate Tailed(s: Scheme, h1: word, h2: word, k1: word, k2: word, n: nat, h1': word, h2': word) {
    forall k {:trigger Unseal(k)} :: Unseal(k) ==> State(h1', h2') == s.tail(State(h1, h2), k1, k2, n)
  }

  ghost predicate Finished(s: Scheme, h1: word, h2: word, len: word, h1': word, h2': word) {
    forall k {:trigger Unseal(k)} :: Unseal(k) ==> State(h1', h2') == s.finish(State(h1, h2), len)
  }

  method BlockStep(h1: word, h2: word, w1: word, w2: word) returns (h1': word, h2': word)
    ensures Stepped(MURMUR, h1, h2, w1, w2, h1', h2')
  {
    var k1, k2 := w1, w2;
    k1 := TimesC1(k1);
    k1 := Rotl31(k1);
    k1 := TimesC2(k1);
    h1' := Xor(h1, k1);
    h1' := Rotl27(h1');
    h1' := Add(h1', h2);
    h1' := Add(Times5(h1'), 0x52dce729);
    k2 := TimesC2(k2);
    k2 := Rotl33(k2);
    k2 := TimesC1(k2);
    h2' := Xor(h2, k2);
    h2' := Rotl31(h2');
    h2' := Add(h2', h1');
    h2' := Add(Times5(h2'), 0x38495ab5);
  }

  method TailMix(h1: word, h2: word, k1: word, k2: word, n: nat) returns (h1': word, h2': word)
    ensures Tailed(MURMUR, h1, h2, k1, k2, n, h1', h2')
  {
    h1', h2' := h1, h2;
    if n >= 9 {
      h2' := Xor(h2, Mix2(k2));
    }
    if n >= 1 {
      h1' := Xor(h1, Mix1(k1));
    }
  }

  method FinalStep(h1: word, h2: word, len: word) returns (h1': word, h2': word)
    ensures Finished(MURMUR, h1, h2, len, h1', h2')
  {
    h1', h2' := Xor(h1, len), Xor(h2, len);
    h1' := Add(h1', h2');
    h2' := Add(h2', h1');
    h1', h2' := Fmix(h1'), Fmix(h2');
    h1' := Add(h1', h2');
    h2' := Add(h2', h1');
  }

  /** (h1, h2) is the state after i blocks. */
  ghost predicate AfterBlocks(s: Scheme, data: seq<octet>, i: nat, h1: word, h2: word) {
    forall k {:trigger Unseal(k)} :: Unseal(k) ==> State(h1, h2) == Body(s, Words(data), i)
  }

  lemma OneMoreBlock(s: Scheme, data: seq<octet>, i: nat, h1: word, h2: word, h1': word, h2': word)
    requires AfterBlocks(s, data, i, h1, h2)
    requires Stepped(s, h1, h2, Load(data, 16 * i), Load(data, 16 * i + 8), h1', h2')
    ensures AfterBlocks(s, data, i + 1, h1', h2')
  {
    assert Words(data)(2 * i) == Load(data, 16 * i) && Words(data)(2 * i + 1) == Load(data, 16 * i + 8);
  }

  lemma RunDone(s: Scheme, words: nat -> word, n: nat, r: nat, len: word, h: State, t: State, f: State)
    requires h == Body(s, words, n) && t == s.tail(h, words(2 * n), words(2 * n + 1), r) && f == s.finish(t, len)
    ensures f == RunWords(s, words, n, r, len)
  {
  }

  lemma BlocksDone(s: Scheme, data: seq<octet>, n: nat, p: nat, r: nat, len: word, h1: word, h2: word,
                   t1: word, t2: word, f1: word, f2: word)
    requires AfterBlocks(s, data, n, h1, h2) && p == n * 16
    requires Tailed(s, h1, h2, Load(data, p), Load(data, p + 8), r, t1, t2)
    requires Finished(s, t1, t2, len, f1, f2)
    ensures State(f1, f2) == RunWords(s, Words(data), n, r, len)
  {
    assert Unseal(0);
    assert Words(data)(2 * n) == Load(data, p) && Words(data)(2 * n + 1) == Load(data, p + 8);
    RunDone(s, Words(data), n, r, len, State(h1, h2), State(t1, t2), State(f1, f2));
  }

  lemma AllDone(s: Scheme, data: seq<octet>, p: nat, h1: word, h2: word, t1: word, t2: word, f1: word, f2: word)
    requires AfterBlocks(s, data, |data| / 16, h1, h2) && p == |data| / 16 * 16
    requires Tailed(s, h1, h2, Load(data, p), Load(data, p + 8), |data| % 16, t1, t2)
    requires Finished(s, t1, t2, Length(data), f1, f2)
    ensures State(f1, f2) == Run(s, data)
  {
    BlocksDone(s, data, |data| / 16, p, |data| % 16, Length(data), h1, h2, t1, t2, f1, f2);
  }

  /** `Hasher128`: only the first half of the final state is returned. */
  method Hash(data: seq<octet>) returns (h: word)
    ensures h == Digest(data).h1
  {
    var nblocks := |data| / 16;
    var h1: word, h2: word := 0, 0;
    for i := 0 to nblocks
      invariant AfterBlocks(MURMUR, data, i, h1, h2)
    {
      var g1, g2 := BlockStep(h1, h2, Load(data, 16 * i), Load(data, 16 * i + 8));
      OneMoreBlock(MURMUR, data, i, h1, h2, g1, g2);
      h1, h2 := g1, g2;
    }
    var p := nblocks * 16;
    var k1, k2 := TailWords(data, p);
    var t1, t2 := TailMix(h1, h2, k1, k2, |data| % 16);
    var f1, f2 := FinalStep(t1, t2, Length(data));
    AllDone(MURMUR, data, p, h1, h2, t1, t2, f1, f2);
    return f1;
  }
}
