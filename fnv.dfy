/** 64-bit FNV-1a, the string hash of the key/value map (json.c:115-123). */
module Fnv {

  /** Standard FNV-1a 64-bit offset basis (the FNV_OFFSET of json.c:117). */
  const OffsetBasis: bv64 := 14695981039346656037

  /** Standard FNV-1a 64-bit prime (the FNV_PRIME of json.c:120). */
  const Prime: bv64 := 1099511628211

  /** The byte a character contributes, as the `(unsigned char)` cast at json.c:119 truncates it. */
  function Byte(c: char): bv64
  {
    ((c as int) % 256) as bv64
  }

  /** One round of the hash: XOR the byte in, then multiply by the prime; bv64 wraps mod 2^64 as uint64_t does. */
  function Step(h: bv64, c: char): bv64
  {
    (h ^ Byte(c)) * Prime
  }

  /** The hash state reached from `h` after feeding the characters of `s` front to back. */
  function Fold(h: bv64, s: string): bv64
    decreases |s|
  {
    if s == [] then h else Fold(Step(h, s[0]), s[1..])
  }

  /** hashmap_hash_func: the fold started from the offset basis. */
  function Hash(key: string): bv64
  {
    Fold(OffsetBasis, key)
  }

  /** Feeding one more character applies exactly one more round to the state reached so far. */
  lemma {:induction false} FoldSnoc(h: bv64, s: string, c: char)
    ensures Fold(h, s + [c]) == Step(Fold(h, s), c)
    decreases |s|
  {
    if s == [] {
      assert s + [c] == [c];
      assert [c][1..] == [];
    } else {
      assert (s + [c])[1..] == s[1..] + [c];
      FoldSnoc(Step(h, s[0]), s[1..], c);
    }
  }

  /** The key of the empty string is the offset basis, and each further byte is XORed in before one multiplication by the prime. */
  lemma HashRounds(s: string, c: char)
    ensures Hash([]) == OffsetBasis
    ensures Hash(s + [c]) == Step(Hash(s), c)
  {
    FoldSnoc(OffsetBasis, s, c);
  }

  /** The loop of hashmap_hash_func (json.c:117-122): one round (XOR, then multiply) per character. */
  method HashFunc(key: string) returns (hash: bv64)
    ensures hash == Hash(key)
  {
    hash := OffsetBasis;
    var i := 0;
    while i < |key|
      invariant 0 <= i <= |key|
      invariant hash == Hash(key[..i])
    {
      assert key[..i + 1] == key[..i] + [key[i]];
      HashRounds(key[..i], key[i]);
      hash := Step(hash, key[i]);
      i := i + 1;
    }
    assert key[..i] == key;
  }
}
