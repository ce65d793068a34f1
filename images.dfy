/** The front end's image choices: a book cover picked from a fixed list,
    deterministically from a seed string when there is one, and the two
    fixed illustrations of the login and registration pages. */
module Images {
  import opened Common

  /** A UTF-16 code unit, what `charCodeAt` returns. */
  type CodeUnit = c: int | 0 <= c < 0x1_0000

  const BookCovers: seq<string> := [
    "https://images.unsplash.com/photo-1544947950-fa07a98d237f?q=80&w=800&auto=format&fit=crop",
    "https://images.unsplash.com/photo-1512820790803-83ca734da794?q=80&w=800&auto=format&fit=crop",
    "https://images.unsplash.com/photo-1589829085413-56de8ae18c73?q=80&w=800&auto=format&fit=crop",
    "https://images.unsplash.com/photo-1543002588-bfa74002ed7e?q=80&w=800&auto=format&fit=crop",
    "https://images.unsplash.com/photo-1532012197267-da84d127e765?q=80&w=800&auto=format&fit=crop",
    "https://images.unsplash.com/photo-1495640388908-05fa85217e6d?q=80&w=800&auto=format&fit=crop",
    "https://images.unsplash.com/photo-1550399105-c4db5fb85c18?q=80&w=800&auto=format&fit=crop",
    "https://images.unsplash.com/photo-1519681393798-3828fb4090bb?q=80&w=800&auto=format&fit=crop",
    "https://images.unsplash.com/photo-1516979187457-637abb4f9353?q=80&w=800&auto=format&fit=crop",
    "https://images.unsplash.com/photo-1524578271613-d550eacf6090?q=80&w=800&auto=format&fit=crop"
  ]

  const LibraryIllustrations: seq<string> := [
    "https://images.unsplash.com/photo-1507842217121-9e93c8aaf27c?q=80&w=2670&auto=format&fit=crop",
    "https://images.unsplash.com/photo-1481627834876-b7833e8f5570?q=80&w=2828&auto=format&fit=crop",
    "https://images.unsplash.com/photo-1521587760476-6c12a4b040da?q=80&w=2670&auto=format&fit=crop"
  ]

  /** JavaScript's `x << 5` on an integral number: `ToInt32(x)` shifted
      left by five bits, the result read back as a signed 32-bit value. */
  function ShiftLeft5(x: int): (r: Int32)
    ensures MinInt32 <= x * 32 <= MaxInt32 ==> r == x * 32
  {
    Wrap32(Wrap32(x) * 32)
  }

  /** The shift multiplies by 32 modulo 2^32, whatever the operand: both
      truncations only add multiples of 2^32. */
  lemma ShiftLeft5Congruent(x: int)
    ensures (ShiftLeft5(x) - x * 32) % 0x1_0000_0000 == 0
  {
    var w := Wrap32(x);
    Wrap32Congruent(x);
    Wrap32Congruent(w * 32);
    var a, b := (w - x) / 0x1_0000_0000, (ShiftLeft5(x) - w * 32) / 0x1_0000_0000;
    assert w - x == 0x1_0000_0000 * a;
    assert ShiftLeft5(x) - w * 32 == 0x1_0000_0000 * b;
    assert ShiftLeft5(x) - x * 32 == 0x1_0000_0000 * (b + 32 * a);
  }

  /** One round of the seed hash: `c + ((hash << 5) - hash)`. The addition
      and subtraction are exact floating-point operations on integers while
      the hash stays below 2^53 in magnitude (see HashBound). */
  function HashStep(hash: int, c: CodeUnit): int {
    c + (ShiftLeft5(hash) - hash)
  }

  /** The hash of a seed: the rounds applied left to right from 0. The
      first round starts from 0, so a one-unit seed hashes to its code. */
  function SeedHash(s: seq<CodeUnit>): (h: int)
    ensures s == [] ==> h == 0
    ensures |s| == 1 ==> h == s[0]
  {
    if s == [] then 0 else HashStep(SeedHash(s[..|s| - 1]), s[|s| - 1])
  }

  /** Hashing a seed one code unit longer is one more round on the hash
      so far: the hash can be computed by a single left-to-right pass. */
  lemma SeedHashAppend(s: seq<CodeUnit>, c: CodeUnit)
    ensures SeedHash(s + [c]) == HashStep(SeedHash(s), c)
  {
    assert (s + [c])[..|s|] == s;
  }

  /** Each round moves the hash by at most 2^31 + 65535. */
  const HashGrowth: int := 0x8000_0000 + 0xFFFF

  /** The hash grows at most linearly with the length of the seed. */
  lemma {:induction false} HashBound(s: seq<CodeUnit>)
    ensures Abs(SeedHash(s)) <= |s| * HashGrowth
  {
    if s != [] {
      var prefix := s[..|s| - 1];
      HashBound(prefix);
      var h := SeedHash(prefix);
      var c := s[|s| - 1];
      assert SeedHash(s) == c + ShiftLeft5(h) - h;
      assert Abs(c + ShiftLeft5(h)) <= HashGrowth;
      assert |s| * HashGrowth == |prefix| * HashGrowth + HashGrowth;
    }
  }

  /** For any seed shorter than four million code units the hash stays
      below 2^53, so the floating-point arithmetic of the source computes
      it exactly. */
  lemma HashExact(s: seq<CodeUnit>)
    requires |s| <= 4_000_000
    ensures Abs(SeedHash(s)) < 0x20_0000_0000_0000
  {
    HashBound(s);
    assert |s| * HashGrowth <= 4_000_000 * HashGrowth;
  }

  /** The cover a seed selects: `Math.abs(hash) % 10`. */
  function SeededCover(s: seq<CodeUnit>): (cover: string)
    ensures cover in BookCovers
  {
    BookCovers[Abs(SeedHash(s)) % |BookCovers|]
  }

  /** `getRandomBookCover`. A present, non-empty seed selects a cover by
      its hash; an absent or empty seed (both falsy) takes the random
      branch, whose `Math.random()` is the parameter `draw`. Either way the
      result is one of the covers. */
  method GetRandomBookCover(seed: Option<seq<CodeUnit>>, draw: real) returns (cover: string)
    requires 0.0 <= draw < 1.0
    ensures cover in BookCovers
    ensures seed.Some? && seed.value != [] ==> cover == SeededCover(seed.value)
    ensures !(seed.Some? && seed.value != []) ==> cover == BookCovers[(draw * 10.0).Floor]
  {
    if seed.Some? && seed.value != [] {
      var s := seed.value;
      var hash := 0;
      var i := 0;
      while i < |s|
        invariant 0 <= i <= |s|
        invariant hash == SeedHash(s[..i])
      {
        assert s[..i + 1] == s[..i] + [s[i]];
        SeedHashAppend(s[..i], s[i]);
        hash := s[i] + (ShiftLeft5(hash) - hash);
        i := i + 1;
      }
      assert s[..|s|] == s;
      var index := Abs(hash) % |BookCovers|;
      return BookCovers[index];
    }
    var index := (draw * (|BookCovers| as real)).Floor;
    return BookCovers[index];
  }

  /** `getLoginImage`: a library illustration, not the one the
      registration page shows. */
  function GetLoginImage(): (image: string)
    ensures image in LibraryIllustrations
    ensures image != GetRegisterImage()
  {
    LibraryIllustrations[0]
  }

  /** `getRegisterImage` */
  function GetRegisterImage(): (image: string)
    ensures image in LibraryIllustrations
  {
    LibraryIllustrations[1]
  }
}
