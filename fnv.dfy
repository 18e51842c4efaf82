/** The seed hash `xfnv1a`: 32-bit FNV-1a over the UTF-16 code units of a string. */
module Fnv {
  import opened Words

  const OffsetBasis: Word := 2166136261
  const Prime: Word := 16777619

  /** One round: xor in the code unit, then multiply by the prime keeping 32 bits. */
  function Step(h: Word, c: CodeUnit): Word
  {
    (h ^ c as Word) * Prime
  }

  /** The hash of a code-unit string, defined by its last code unit. */
  function Hash(s: seq<CodeUnit>): Word
    decreases |s|
  {
    if s == [] then OffsetBasis else Step(Hash(s[..|s| - 1]), s[|s| - 1])
  }

  /** Folding `Step` over `s` from the front, starting at `h`: the order in
      which the loop visits the code units. */
  function FoldFrom(h: Word, s: seq<CodeUnit>): Word
    decreases |s|
  {
    if s == [] then h else FoldFrom(Step(h, s[0]), s[1..])
  }

  /** Appending one code unit costs exactly one more round. */
  lemma HashSnoc(s: seq<CodeUnit>, c: CodeUnit)
    ensures Hash(s + [c]) == Step(Hash(s), c)
  {
    assert (s + [c])[..|s|] == s;
  }

  lemma {:induction false} FoldFromSnoc(h: Word, s: seq<CodeUnit>, c: CodeUnit)
    ensures FoldFrom(h, s + [c]) == Step(FoldFrom(h, s), c)
    decreases |s|
  {
    if s != [] {
      assert (s + [c])[1..] == s[1..] + [c];
      FoldFromSnoc(Step(h, s[0]), s[1..], c);
    }
  }

  /** Hashing `s + t` continues from the hash of `s`: the hash is a left fold. */
  lemma {:induction false} HashConcat(s: seq<CodeUnit>, t: seq<CodeUnit>)
    ensures Hash(s + t) == FoldFrom(Hash(s), t)
    decreases |t|
  {
    if t == [] {
      assert s + t == s;
    } else {
      var u, c := t[..|t| - 1], t[|t| - 1];
      assert t == u + [c];
      assert s + t == (s + u) + [c];
      HashSnoc(s + u, c);
      HashConcat(s, u);
      FoldFromSnoc(Hash(s), u, c);
    }
  }

  /** The hash is the front-to-back fold from the offset basis. */
  lemma HashIsFold(s: seq<CodeUnit>)
    ensures Hash(s) == FoldFrom(OffsetBasis, s)
  {
    HashConcat([], s);
    assert [] + s == s;
  }

  /** `xfnv1a`: one round per code unit on the accumulator `h`, front to back. */
  method Xfnv1a(str: seq<CodeUnit>) returns (h: Word)
    ensures h == Hash(str)
  {
    h := OffsetBasis;
    for i := 0 to |str|
      invariant h == Hash(str[..i])
    {
      assert str[..i + 1] == str[..i] + [str[i]];
      HashSnoc(str[..i], str[i]);
      h := Step(h, str[i]);
    }
    assert str[..|str|] == str;
  }

  /** The code units of "example.com". */
  const ExampleCom: seq<CodeUnit> :=
    [0x65, 0x78, 0x61, 0x6D, 0x70, 0x6C, 0x65, 0x2E, 0x63, 0x6F, 0x6D]

  /** Golden values: the empty seed hashes to the offset basis, and
      "example.com" to 0x431CEB26. */
  lemma GoldenHashes()
    ensures Hash([]) == 0x811C_9DC5
    ensures Hash(ExampleCom) == 0x431C_EB26
  {
    HashIsFold(ExampleCom);
  }
}
