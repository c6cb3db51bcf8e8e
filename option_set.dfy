/**
 The public option set of the regular-expression wrapper (`RegExpOptions`): a
 bit set over Swift's `UInt`, its seven single-bit flags, the `OptionSet`
 operations the translation layer relies on (membership, union, intersection,
 construction from a sequence of members), the `default` set and the hash.
 */
module RegExpOptionSet {
  import opened Wrappers
  import opened Bits

  /** Swift's `UInt` on a 64-bit platform. */
  type UInt = x: nat | x < 0x1_0000_0000_0000_0000

  /** The bounds of Swift's `Int` on a 64-bit platform. */
  const IntMin: int := -0x8000_0000_0000_0000
  const IntMax: int := 0x7FFF_FFFF_FFFF_FFFF

  /** `init(rawValue:)` stores its argument unchanged: the datatype constructor. */
  datatype RegExpOptions = RegExpOptions(rawValue: UInt)

  const CaseInsensitive := RegExpOptions(1)
  const AllowCommentsAndWhitespace := RegExpOptions(2)
  const IgnoreMetacharacters := RegExpOptions(4)
  const DotMatchesLineSeparators := RegExpOptions(8)
  const AnchorsMatchLines := RegExpOptions(16)
  const UseUnixLineSeparators := RegExpOptions(32)
  const UseUnicodeWordBoundaries := RegExpOptions(64)

  /** The seven flags in the order they are declared. */
  const AllFlags: seq<RegExpOptions> := [
    CaseInsensitive, AllowCommentsAndWhitespace, IgnoreMetacharacters,
    DotMatchesLineSeparators, AnchorsMatchLines, UseUnixLineSeparators,
    UseUnicodeWordBoundaries
  ]

  /** No bit beyond the seven declared ones (positions 0 to 6) is set. */
  predicate WithinDeclaredBits(o: RegExpOptions) {
    o.rawValue < 0x80
  }

  /** `init()` of `OptionSet`: no bit set. */
  const Empty := RegExpOptions(0)

  /** `contains(_:)` of `OptionSet`: `o` and `member` have `member` in common. */
  predicate Contains(o: RegExpOptions, member: RegExpOptions) {
    And(o.rawValue, member.rawValue) == member.rawValue
  }

  /** `union(_:)` of `OptionSet`. */
  function Union(a: RegExpOptions, b: RegExpOptions): RegExpOptions {
    Pow2Values();
    OrBelowPow2(a.rawValue, b.rawValue, 64);
    RegExpOptions(Or(a.rawValue, b.rawValue))
  }

  /** `intersection(_:)` of `OptionSet`. */
  function Intersection(a: RegExpOptions, b: RegExpOptions): RegExpOptions {
    Pow2Values();
    AndBelowPow2(a.rawValue, b.rawValue, 64);
    RegExpOptions(And(a.rawValue, b.rawValue))
  }

  /**
   Left fold of `insert` over `s` starting from `acc`, as `OptionSet`'s
   `init(_ sequence:)` inserts the members one by one.
   */
  function UnionAll(s: seq<RegExpOptions>, acc: RegExpOptions): RegExpOptions
    decreases |s|
  {
    if s == [] then acc else UnionAll(s[1..], Union(acc, s[0]))
  }

  /** `init(_ sequence:)` (and the array-literal initialiser) of `OptionSet`. */
  function FromSequence(s: seq<RegExpOptions>): RegExpOptions {
    UnionAll(s, Empty)
  }

  /** `RegExpOptions.default`, written `[caseInsensitive]` in the source. */
  const Default := FromSequence([CaseInsensitive])

  /** The union of all seven flags. */
  const AllDeclared := FromSequence(AllFlags)

  /** Every bit of `m` is a bit of `n`. */
  ghost predicate BitsIncluded(m: nat, n: nat) {
    forall i: nat :: HasBit(m, i) ==> HasBit(n, i)
  }

  /** `o` contains `member` exactly when every bit of `member` is a bit of `o`. */
  lemma ContainsIsBitwiseSuperset(o: RegExpOptions, member: RegExpOptions)
    ensures Contains(o, member) <==> BitsIncluded(member.rawValue, o.rawValue)
  {
    forall i: nat
      ensures HasBit(And(o.rawValue, member.rawValue), i) <==> HasBit(o.rawValue, i) && HasBit(member.rawValue, i)
    {
      HasBitAnd(o.rawValue, member.rawValue, i);
    }
    if BitsIncluded(member.rawValue, o.rawValue) {
      SameBitsSameNumber(And(o.rawValue, member.rawValue), member.rawValue);
    } else {
      var i: nat :| HasBit(member.rawValue, i) && !HasBit(o.rawValue, i);
      assert !HasBit(And(o.rawValue, member.rawValue), i);
    }
  }

  /** A bit of a union is set exactly when it is set in either operand. */
  lemma HasBitUnion(a: RegExpOptions, b: RegExpOptions, i: nat)
    ensures HasBit(Union(a, b).rawValue, i) <==> HasBit(a.rawValue, i) || HasBit(b.rawValue, i)
  {
    HasBitOr(a.rawValue, b.rawValue, i);
  }

  /** A bit of an intersection is set exactly when it is set in both operands. */
  lemma HasBitIntersection(a: RegExpOptions, b: RegExpOptions, i: nat)
    ensures HasBit(Intersection(a, b).rawValue, i) <==> HasBit(a.rawValue, i) && HasBit(b.rawValue, i)
  {
    HasBitAnd(a.rawValue, b.rawValue, i);
  }

  /** The union contains both operands and is contained in every set that contains both. */
  lemma UnionIsLeastUpperBound(a: RegExpOptions, b: RegExpOptions, c: RegExpOptions)
    ensures Contains(Union(a, b), a) && Contains(Union(a, b), b)
    ensures Contains(c, Union(a, b)) <==> Contains(c, a) && Contains(c, b)
  {
    forall i: nat {
      HasBitUnion(a, b, i);
    }
    ContainsIsBitwiseSuperset(Union(a, b), a);
    ContainsIsBitwiseSuperset(Union(a, b), b);
    ContainsIsBitwiseSuperset(c, Union(a, b));
    ContainsIsBitwiseSuperset(c, a);
    ContainsIsBitwiseSuperset(c, b);
  }

  /**
   A bit of the fold is set exactly when it is set in the start value or in
   some member of the sequence.
   */
  lemma {:induction false} HasBitUnionAll(s: seq<RegExpOptions>, acc: RegExpOptions, i: nat)
    ensures HasBit(UnionAll(s, acc).rawValue, i) <==>
      HasBit(acc.rawValue, i) || exists j :: 0 <= j < |s| && HasBit(s[j].rawValue, i)
    decreases |s|
  {
    if s != [] {
      HasBitUnionAll(s[1..], Union(acc, s[0]), i);
      HasBitUnion(acc, s[0], i);
      if exists j :: 0 <= j < |s| && HasBit(s[j].rawValue, i) {
        var j :| 0 <= j < |s| && HasBit(s[j].rawValue, i);
        if j > 0 {
          assert s[1..][j - 1] == s[j];
        }
      }
    }
  }

  /** A bit of `FromSequence(s)` is set exactly when some member of `s` has it. */
  lemma HasBitFromSequence(s: seq<RegExpOptions>, i: nat)
    ensures HasBit(FromSequence(s).rawValue, i) <==> exists j :: 0 <= j < |s| && HasBit(s[j].rawValue, i)
  {
    HasBitUnionAll(s, Empty, i);
    NoBitOfZero(i);
  }

  /** No bit of `n` at position `k` or above is set. */
  ghost predicate NoBitFrom(n: nat, k: nat) {
    forall i: nat :: k <= i ==> !HasBit(n, i)
  }

  /** An option set is within the declared bits exactly when it has no bit at position 7 or above. */
  lemma WithinDeclaredBitsIffNoHighBit(o: RegExpOptions)
    ensures WithinDeclaredBits(o) <==> NoBitFrom(o.rawValue, 7)
  {
    Pow2Values();
    if NoBitFrom(o.rawValue, 7) {
      BelowPow2(o.rawValue, 7);
    } else {
      var i: nat :| 7 <= i && HasBit(o.rawValue, i);
      if WithinDeclaredBits(o) {
        NoBitAtOrAbove(o.rawValue, 7, i);
      }
    }
  }

  /** Flag `k` (in declaration order) is 2^k: a single bit, at position k. */
  lemma FlagIsSingleBit(k: nat, i: nat)
    requires k < |AllFlags|
    ensures AllFlags[k].rawValue == Pow2(k)
    ensures HasBit(AllFlags[k].rawValue, i) <==> i == k
  {
    if k == 0 {
    } else if k == 1 {
    } else if k == 2 {
    } else if k == 3 {
    } else if k == 4 {
    } else if k == 5 {
    } else {
      assert k == 6;
    }
    HasBitPow2(k, i);
  }

  /** The seven flags are pairwise distinct. */
  lemma FlagsAreDistinct(j: nat, k: nat)
    requires j < |AllFlags| && k < |AllFlags| && j != k
    ensures AllFlags[j] != AllFlags[k]
    ensures Intersection(AllFlags[j], AllFlags[k]) == Empty
  {
    FlagIsSingleBit(j, j);
    FlagIsSingleBit(k, j);
    forall i: nat
      ensures HasBit(Intersection(AllFlags[j], AllFlags[k]).rawValue, i) <==> HasBit(0, i)
    {
      HasBitIntersection(AllFlags[j], AllFlags[k], i);
      FlagIsSingleBit(j, i);
      FlagIsSingleBit(k, i);
      NoBitOfZero(i);
    }
    SameBitsSameNumber(Intersection(AllFlags[j], AllFlags[k]).rawValue, 0);
  }

  /** An option set contains flag `k` exactly when its bit k is set. */
  lemma ContainsFlag(o: RegExpOptions, k: nat)
    requires k < |AllFlags|
    ensures Contains(o, AllFlags[k]) <==> HasBit(o.rawValue, k)
  {
    ContainsIsBitwiseSuperset(o, AllFlags[k]);
    forall i: nat {
      FlagIsSingleBit(k, i);
    }
  }

  /** The union of the seven flags has exactly bits 0 to 6 set: it is 127. */
  lemma AllDeclaredIs127()
    ensures forall i: nat :: HasBit(AllDeclared.rawValue, i) <==> i < 7
    ensures AllDeclared.rawValue == 0x7F
  {
    forall i: nat
      ensures HasBit(AllDeclared.rawValue, i) <==> i < 7
    {
      HasBitFromSequence(AllFlags, i);
      if i < 7 {
        FlagIsSingleBit(i, i);
      } else {
        forall j | 0 <= j < |AllFlags|
          ensures !HasBit(AllFlags[j].rawValue, i)
        {
          FlagIsSingleBit(j, i);
        }
      }
    }
    Pow2Values();
    forall i: nat
      ensures HasBit(AllDeclared.rawValue, i) <==> HasBit(0x7F, i)
    {
      HasBitLowMask(7, i);
    }
    SameBitsSameNumber(AllDeclared.rawValue, 0x7F);
  }

  /**
   Masking with the seven declared bits keeps exactly the bits of `o` below
   position 7, and leaves a value within the declared bits unchanged.
   */
  lemma MaskKeepsDeclaredBits(o: RegExpOptions)
    ensures forall i: nat :: HasBit(Intersection(o, AllDeclared).rawValue, i) <==> i < 7 && HasBit(o.rawValue, i)
    ensures WithinDeclaredBits(Intersection(o, AllDeclared))
    ensures WithinDeclaredBits(o) ==> Intersection(o, AllDeclared) == o
  {
    AllDeclaredIs127();
    forall i: nat
      ensures HasBit(Intersection(o, AllDeclared).rawValue, i) <==> i < 7 && HasBit(o.rawValue, i)
    {
      HasBitIntersection(o, AllDeclared, i);
    }
    WithinDeclaredBitsIffNoHighBit(Intersection(o, AllDeclared));
    WithinDeclaredBitsIffNoHighBit(o);
    if WithinDeclaredBits(o) {
      SameBitsSameNumber(Intersection(o, AllDeclared).rawValue, o.rawValue);
    }
  }

  /** `default` holds exactly `caseInsensitive`, so its raw value is 1. */
  lemma DefaultIsCaseInsensitiveOnly()
    ensures forall k :: 0 <= k < |AllFlags| ==> (Contains(Default, AllFlags[k]) <==> AllFlags[k] == CaseInsensitive)
    ensures Default.rawValue == 1
  {
    forall i: nat
      ensures HasBit(Default.rawValue, i) <==> i == 0
    {
      HasBitFromSequence([CaseInsensitive], i);
      FlagIsSingleBit(0, i);
    }
    forall k | 0 <= k < |AllFlags|
      ensures Contains(Default, AllFlags[k]) <==> AllFlags[k] == CaseInsensitive
    {
      ContainsFlag(Default, k);
      if k != 0 {
        FlagsAreDistinct(0, k);
      }
    }
    forall i: nat
      ensures HasBit(Default.rawValue, i) <==> HasBit(1, i)
    {
      HasBitPow2(0, i);
    }
    SameBitsSameNumber(Default.rawValue, 1);
  }

  /**
   `hashValue` as written: `Int(rawValue)`, which traps (`None`) when the raw
   value does not fit in `Int`. Where it does not trap, the hash is a
   non-negative `Int` that gives back the option set it was computed from.
   */
  function HashValue(o: RegExpOptions): (r: Option<int>)
    ensures r.None? <==> o.rawValue > IntMax
    ensures r.Some? ==> 0 <= r.value <= IntMax && RegExpOptions(r.value) == o
  {
    if o.rawValue <= IntMax then Some(o.rawValue) else None
  }

  /** An option set with the top bit of `UInt` set makes `hashValue` trap. */
  lemma HashValueTrapsOnTopBit()
    ensures HashValue(RegExpOptions(0x8000_0000_0000_0000)).None?
    ensures HashValue(RegExpOptions(0xFFFF_FFFF_FFFF_FFFF)).None?
  {
  }

  /** Where `hashValue` does not trap, equal hashes mean equal option sets and conversely. */
  lemma HashValueDeterminesOptions(a: RegExpOptions, b: RegExpOptions)
    requires HashValue(a).Some?
    ensures HashValue(a) == HashValue(b) <==> a == b
  {
  }

  /**
   `hashValue` as `Int(bitPattern: rawValue)`: total, an `Int`, equal to the
   written hash wherever that one does not trap, and still a faithful encoding
   of the option set.
   */
  function HashValueBitPattern(o: RegExpOptions): (r: int)
    ensures IntMin <= r <= IntMax
    ensures HashValue(o).Some? ==> r == HashValue(o).value
    ensures (if r < 0 then r + 0x1_0000_0000_0000_0000 else r) == o.rawValue
  {
    if o.rawValue <= IntMax then o.rawValue else o.rawValue - 0x1_0000_0000_0000_0000
  }

  /** Equal option sets have equal bit-pattern hashes, and distinct option sets distinct ones. */
  lemma HashValueBitPatternInjective(a: RegExpOptions, b: RegExpOptions)
    ensures HashValueBitPattern(a) == HashValueBitPattern(b) <==> a == b
  {
  }
}
