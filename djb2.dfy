/** The djb2 (Bernstein) string hash, computed in 64-bit `unsigned long` arithmetic. */
module Djb2Hash {
  import opened CStrings

  /** 2^64: `unsigned long` arithmetic wraps modulo this (a 64-bit `unsigned long` is assumed). */
  const WORD: nat := 0x1_0000_0000_0000_0000

  type ulong = x: int | 0 <= x < WORD

  /** The accumulator's initial value. */
  const SEED: ulong := 5381

  /** One step of the hash: `hash * 33 + c`, wrapped to 64 bits. */
  function Step(h: ulong, c: byte): (h': ulong)
  {
    (h * 33 + c) % WORD
  }

  /** The accumulator after reading all bytes of `s`, wrapping at every step. */
  function Djb2(s: seq<byte>): (h: ulong)
  {
    if s == [] then SEED else Step(Djb2(s[..|s| - 1]), s[|s| - 1])
  }

  /** The same polynomial over unbounded integers: 5381 * 33^n + sum of s[i] * 33^(n-1-i). */
  function Poly(s: seq<byte>): (p: nat)
  {
    if s == [] then 5381 else Poly(s[..|s| - 1]) * 33 + s[|s| - 1]
  }

  /** Reducing before each multiplication does not change the residue. */
  lemma ReduceThenStep(a: nat, c: byte)
    ensures ((a % WORD) * 33 + c) % WORD == (a * 33 + c) % WORD
  {
    var q, r := a / WORD, a % WORD;
    assert a * 33 + c == (q * 33) * WORD + (r * 33 + c);
    ModAddMultiple(r * 33 + c, q * 33);
  }

  lemma ModAddMultiple(x: nat, k: nat)
    ensures (k * WORD + x) % WORD == x % WORD
  {
  }

  /** Wrapping at every step is the same as computing the polynomial exactly and wrapping once. */
  lemma {:induction false} Djb2IsPolyModWord(s: seq<byte>)
    ensures Djb2(s) == Poly(s) % WORD
  {
    if s != [] {
      var p := s[..|s| - 1];
      Djb2IsPolyModWord(p);
      ReduceThenStep(Poly(p), s[|s| - 1]);
    }
  }

  /** `(hash << 5) + hash + c` in 64-bit arithmetic is one `Step`. */
  lemma ShiftAddIsStep(h: ulong, c: byte)
    ensures (((h * 32) % WORD + h) % WORD + c) % WORD == Step(h, c)
  {
    var x := (h * 32) % WORD;
    assert h * 32 == (h * 32 / WORD) * WORD + x;
    ModAddMultiple(x + h, h * 32 / WORD);
    var y := (x + h) % WORD;
    assert x + h == ((x + h) / WORD) * WORD + y;
    ModAddMultiple(y + c, (x + h) / WORD);
    assert h * 33 + c == (h * 32 / WORD + (x + h) / WORD) * WORD + (y + c);
    ModAddMultiple(y + c, h * 32 / WORD + (x + h) / WORD);
  }

  /** `hash`: fold the bytes of the terminated buffer until the NUL. */
  method Hash(str: CString) returns (h: ulong)
    ensures h == Djb2(str)
  {
    var buf := str + [0];
    h := SEED;
    var i := 0;
    while buf[i] != 0
      invariant 0 <= i <= |str|
      invariant h == Djb2(str[..i])
      decreases |str| - i
    {
      var c := buf[i];
      ShiftAddIsStep(h, c);
      assert str[..i + 1][..i] == str[..i];
      h := ((h * 32) % WORD + h) % WORD;  // (hash << 5) + hash
      h := (h + c) % WORD;                // ... + c
      i := i + 1;
    }
    assert str[..i] == str;
  }
}
