/**
 The translation between `RegExpOptions` and the engine's option type: the
 fixed table that pairs each engine flag with the `RegExpOptions` flag of the
 same name, the inverse table built from it by a fold, and the two
 conversions `ns` (to the engine) and `regex` (back).

 A Swift dictionary is traversed in an order the program does not choose.
 Every operation here that traverses a dictionary takes that order as a
 parameter (`order`, constrained by `IsTraversal`), and the lemmas show that
 no result depends on it.
 */
module OptionTranslation {
  import opened Bits
  import opened RegExpOptionSet
  import E = EngineOptions

  /** `order` lists every entry of `m` exactly once: one traversal of a dictionary. */
  ghost predicate IsTraversal<K, V>(order: seq<(K, V)>, m: map<K, V>) {
    && (forall i, j :: 0 <= i < j < |order| ==> order[i].0 != order[j].0)
    && (forall i :: 0 <= i < |order| ==> order[i].0 in m && m[order[i].0] == order[i].1)
    && (forall k :: k in m ==> exists i :: 0 <= i < |order| && order[i].0 == k)
  }

  /** No two keys of `m` share a value. */
  ghost predicate Injective<K, V>(m: map<K, V>) {
    forall k1, k2 :: k1 in m && k2 in m && m[k1] == m[k2] ==> k1 == k2
  }

  /** `nsToRegExpOptionsMap`: each engine flag paired with the same-named `RegExpOptions` flag. */
  const NsToRegExpTable: map<E.EngineFlag, RegExpOptions> := map[
    E.CaseInsensitive := CaseInsensitive,
    E.AllowCommentsAndWhitespace := AllowCommentsAndWhitespace,
    E.IgnoreMetacharacters := IgnoreMetacharacters,
    E.DotMatchesLineSeparators := DotMatchesLineSeparators,
    E.AnchorsMatchLines := AnchorsMatchLines,
    E.UseUnixLineSeparators := UseUnixLineSeparators,
    E.UseUnicodeWordBoundaries := UseUnicodeWordBoundaries
  ]

  /** The entries of `nsToRegExpOptionsMap` in the order its literal lists them. */
  const LiteralOrder: seq<(E.EngineFlag, RegExpOptions)> := [
    (E.CaseInsensitive, CaseInsensitive),
    (E.AllowCommentsAndWhitespace, AllowCommentsAndWhitespace),
    (E.IgnoreMetacharacters, IgnoreMetacharacters),
    (E.DotMatchesLineSeparators, DotMatchesLineSeparators),
    (E.AnchorsMatchLines, AnchorsMatchLines),
    (E.UseUnixLineSeparators, UseUnixLineSeparators),
    (E.UseUnicodeWordBoundaries, UseUnicodeWordBoundaries)
  ]

  /**
   The `reduce` that builds the inverse table: starting from `acc`, each entry
   `(key, value)` of `order` in turn stores `key` under `value`.
   */
  function InvertFold<K, V>(order: seq<(K, V)>, acc: map<V, K>): map<V, K>
    decreases |order|
  {
    if order == [] then acc else InvertFold(order[1..], acc[order[0].1 := order[0].0])
  }

  /** `regexToNSOptionsMap`, the fold over one traversal of `nsToRegExpOptionsMap`. */
  const RegExpToNsTable: map<RegExpOptions, E.EngineFlag> := InvertFold(LiteralOrder, map[])

  /**
   `filter` followed by `map` over a traversal of a dictionary: the values of
   the entries whose key passes `keep`, in traversal order.
   */
  function SelectValues<K, V(!new)>(entries: seq<(K, V)>, keep: K -> bool): (r: seq<V>)
    ensures |r| <= |entries|
    ensures forall v :: v in r <==> exists i :: 0 <= i < |entries| && keep(entries[i].0) && entries[i].1 == v
    decreases |entries|
  {
    if entries == [] then []
    else
      var rest := SelectValues(entries[1..], keep);
      assert forall i :: 1 <= i < |entries| ==> entries[i] == entries[1..][i - 1];
      (if keep(entries[0].0) then [entries[0].1] else []) + rest
  }

  /**
   `RegExpOptions.ns`: the engine flags paired, in `regexToNSOptionsMap`
   traversed in `order`, with the flags `opts` contains.
   */
  function Ns(order: seq<(RegExpOptions, E.EngineFlag)>, opts: RegExpOptions): E.EngineOptionSet {
    E.FromSequence(SelectValues(order, (o: RegExpOptions) => Contains(opts, o)))
  }

  /**
   `NSRegularExpression.Options.regex`: the union of the `RegExpOptions` flags
   paired, in `nsToRegExpOptionsMap` traversed in `order`, with the engine
   flags `nsOpts` contains.
   */
  function Regex(order: seq<(E.EngineFlag, RegExpOptions)>, nsOpts: E.EngineOptionSet): RegExpOptions {
    FromSequence(SelectValues(order, (f: E.EngineFlag) => f in nsOpts))
  }

  /** Listed engine flag `k` sits at position `k`. */
  lemma ListedFlagPosition(k: nat)
    requires k < |E.ListedFlags|
    ensures !E.ListedFlags[k].Unlisted? && E.ListedFlags[k].Position() == k
  {
    if k == 0 {
    } else if k == 1 {
    } else if k == 2 {
    } else if k == 3 {
    } else if k == 4 {
    } else if k == 5 {
    } else {
      assert k == 6;
    }
  }

  /**
   The forward table has exactly the seven listed engine flags as keys, pairs
   each with the flag of the same position (and name), and no two keys share
   a value.
   */
  lemma ForwardTableShape()
    ensures forall f :: f in NsToRegExpTable <==> !f.Unlisted?
    ensures forall f :: f in NsToRegExpTable ==> NsToRegExpTable[f] == AllFlags[f.Position()]
    ensures Injective(NsToRegExpTable)
    ensures forall o :: o in NsToRegExpTable.Values <==> o in AllFlags
  {
    forall f | f in NsToRegExpTable
      ensures NsToRegExpTable[f] == AllFlags[f.Position()]
    {
    }
    forall f, g | f in NsToRegExpTable && g in NsToRegExpTable && NsToRegExpTable[f] == NsToRegExpTable[g]
      ensures f == g
    {
      if f.Position() != g.Position() {
        FlagsAreDistinct(f.Position(), g.Position());
      }
    }
    forall o | o in AllFlags
      ensures o in NsToRegExpTable.Values
    {
      var k :| 0 <= k < |AllFlags| && AllFlags[k] == o;
      ListedFlagPosition(k);
      assert NsToRegExpTable[E.ListedFlags[k]] == o;
    }
  }

  /** The literal's own order is a traversal of the forward table. */
  lemma LiteralOrderIsTraversal()
    ensures IsTraversal(LiteralOrder, NsToRegExpTable)
  {
    forall f | f in NsToRegExpTable
      ensures exists i :: 0 <= i < |LiteralOrder| && LiteralOrder[i].0 == f
    {
      assert LiteralOrder[f.Position()].0 == f;
    }
  }

  /**
   When the values of `order` are distinct, the fold stores every key under its
   value and overwrites nothing: its keys are those of `acc` and the values of
   `order`, each value maps back to its key, and `acc` survives where `order`
   does not reach.
   */
  lemma {:induction false} InvertFoldEntries<K, V>(order: seq<(K, V)>, acc: map<V, K>)
    requires forall i, j :: 0 <= i < j < |order| ==> order[i].1 != order[j].1
    ensures InvertFold(order, acc).Keys == acc.Keys + set i | 0 <= i < |order| :: order[i].1
    ensures forall i :: 0 <= i < |order| ==> InvertFold(order, acc)[order[i].1] == order[i].0
    ensures forall v :: v in acc && (forall i :: 0 <= i < |order| ==> order[i].1 != v) ==> InvertFold(order, acc)[v] == acc[v]
    decreases |order|
  {
    if order != [] {
      var acc' := acc[order[0].1 := order[0].0];
      InvertFoldEntries(order[1..], acc');
      assert forall i :: 1 <= i < |order| ==> order[i] == order[1..][i - 1];
    }
  }

  /**
   Folding any traversal of an injective table gives its exact inverse: the
   keys are the table's values and each maps back to its key.
   */
  lemma InvertTraversal<K, V>(order: seq<(K, V)>, m: map<K, V>)
    requires IsTraversal(order, m) && Injective(m)
    ensures InvertFold(order, map[]).Keys == m.Values
    ensures forall k :: k in m ==> InvertFold(order, map[])[m[k]] == k
  {
    forall i, j | 0 <= i < j < |order|
      ensures order[i].1 != order[j].1
    {
      assert m[order[i].0] == order[i].1 && m[order[j].0] == order[j].1;
    }
    InvertFoldEntries(order, map[]);
    var r := InvertFold(order, map[]);
    forall v | v in m.Values
      ensures v in r
    {
      var k :| k in m && m[k] == v;
      var i :| 0 <= i < |order| && order[i].0 == k;
    }
    forall v | v in r
      ensures v in m.Values
    {
      var i :| 0 <= i < |order| && order[i].1 == v;
      assert m[order[i].0] == v;
    }
    forall k | k in m
      ensures r[m[k]] == k
    {
      var i :| 0 <= i < |order| && order[i].0 == k;
    }
  }

  /**
   The inverse table has the seven declared flags as keys and maps each back to
   its engine flag: the two tables are inverse bijections.
   */
  lemma InverseTableIsExactInverse()
    ensures forall o :: o in RegExpToNsTable <==> o in AllFlags
    ensures forall f :: f in NsToRegExpTable ==> RegExpToNsTable[NsToRegExpTable[f]] == f
    ensures forall o :: o in RegExpToNsTable ==>
      RegExpToNsTable[o] in NsToRegExpTable && NsToRegExpTable[RegExpToNsTable[o]] == o
  {
    ForwardTableShape();
    LiteralOrderIsTraversal();
    InvertTraversal(LiteralOrder, NsToRegExpTable);
  }

  /** Both tables have exactly seven entries: building the inverse loses none. */
  lemma TablesHaveSevenEntries()
    ensures |NsToRegExpTable| == 7 && |RegExpToNsTable| == 7
  {
    assert |map[E.CaseInsensitive := 1]| == 1;
    assert |map[E.CaseInsensitive := 1, E.AllowCommentsAndWhitespace := 2]| == 2;
    assert |map[E.CaseInsensitive := 1, E.AllowCommentsAndWhitespace := 2, E.IgnoreMetacharacters := 4]| == 3;
    assert |map[E.CaseInsensitive := 1, E.AllowCommentsAndWhitespace := 2, E.IgnoreMetacharacters := 4,
      E.DotMatchesLineSeparators := 8]| == 4;
    assert |map[E.CaseInsensitive := 1, E.AllowCommentsAndWhitespace := 2, E.IgnoreMetacharacters := 4,
      E.DotMatchesLineSeparators := 8, E.AnchorsMatchLines := 16]| == 5;
    assert |map[E.CaseInsensitive := 1, E.AllowCommentsAndWhitespace := 2, E.IgnoreMetacharacters := 4,
      E.DotMatchesLineSeparators := 8, E.AnchorsMatchLines := 16, E.UseUnixLineSeparators := 32]| == 6;
    assert |NsToRegExpTable| == 7;
    InverseTableIsExactInverse();
    ForwardTableShape();
    assert RegExpToNsTable.Keys == NsToRegExpTable.Values;
    ValuesOfInjective(NsToRegExpTable);
  }

  /** An injective table has as many distinct values as keys. */
  lemma {:induction false} ValuesOfInjective<K, V>(m: map<K, V>)
    requires Injective(m)
    ensures |m.Values| == |m|
    decreases |m|
  {
    if m != map[] {
      var k :| k in m;
      var rest := m - {k};
      assert Injective(rest);
      ValuesOfInjective(rest);
      forall v | v in m.Values
        ensures v in rest.Values + {m[k]}
      {
        var j :| j in m && m[j] == v;
        if j != k {
          assert j in rest && rest[j] == v;
        }
      }
      forall v | v in rest.Values
        ensures v in m.Values
      {
        var j :| j in rest && rest[j] == v;
        assert m[j] == v;
      }
      assert m.Values == rest.Values + {m[k]};
      assert m[k] !in rest.Values;
      assert |rest| == |m| - 1 by {
        assert m.Keys == rest.Keys + {k};
      }
    }
  }

  /** Whatever order the fold traverses the forward table in, it builds the same inverse table. */
  lemma InverseTableIndependentOfOrder(order: seq<(E.EngineFlag, RegExpOptions)>)
    requires IsTraversal(order, NsToRegExpTable)
    ensures InvertFold(order, map[]) == RegExpToNsTable
  {
    ForwardTableShape();
    LiteralOrderIsTraversal();
    InvertTraversal(LiteralOrder, NsToRegExpTable);
    InvertTraversal(order, NsToRegExpTable);
  }

  /**
   `opts.ns` holds a flag exactly when it is one of the seven listed engine
   flags and `opts` contains the same-named flag, that is, the bit at its
   position; the traversal order does not matter.
   */
  lemma NsMembership(order: seq<(RegExpOptions, E.EngineFlag)>, opts: RegExpOptions)
    requires IsTraversal(order, RegExpToNsTable)
    ensures forall f :: f in Ns(order, opts) <==> f in NsToRegExpTable && Contains(opts, NsToRegExpTable[f])
    ensures forall f :: f in Ns(order, opts) <==> !f.Unlisted? && HasBit(opts.rawValue, f.Position())
  {
    InverseTableIsExactInverse();
    ForwardTableShape();
    var keep := (o: RegExpOptions) => Contains(opts, o);
    var sel := SelectValues(order, keep);
    forall f
      ensures f in Ns(order, opts) <==> f in NsToRegExpTable && Contains(opts, NsToRegExpTable[f])
    {
      if f in sel {
        var i :| 0 <= i < |order| && keep(order[i].0) && order[i].1 == f;
      }
      if f in NsToRegExpTable && Contains(opts, NsToRegExpTable[f]) {
        assert NsToRegExpTable[f] in NsToRegExpTable.Values;
        var i :| 0 <= i < |order| && order[i].0 == NsToRegExpTable[f];
        assert keep(order[i].0) && order[i].1 == f;
      }
    }
    forall f | f in NsToRegExpTable
      ensures Contains(opts, NsToRegExpTable[f]) <==> HasBit(opts.rawValue, f.Position())
    {
      ContainsFlag(opts, f.Position());
    }
  }

  /**
   Bit `i` of `nsOpts.regex` is set exactly when `i` is one of the seven
   declared positions and `nsOpts` holds the engine flag at that position;
   the traversal order does not matter.
   */
  lemma RegexBits(order: seq<(E.EngineFlag, RegExpOptions)>, nsOpts: E.EngineOptionSet)
    requires IsTraversal(order, NsToRegExpTable)
    ensures forall i: nat :: HasBit(Regex(order, nsOpts).rawValue, i) <==> i < 7 && E.ListedFlags[i] in nsOpts
  {
    ForwardTableShape();
    var keep := (f: E.EngineFlag) => f in nsOpts;
    var sel := SelectValues(order, keep);
    forall i: nat
      ensures HasBit(Regex(order, nsOpts).rawValue, i) <==> i < 7 && E.ListedFlags[i] in nsOpts
    {
      HasBitFromSequence(sel, i);
      if exists j :: 0 <= j < |sel| && HasBit(sel[j].rawValue, i) {
        var j :| 0 <= j < |sel| && HasBit(sel[j].rawValue, i);
        assert sel[j] in sel;
        var m :| 0 <= m < |order| && keep(order[m].0) && order[m].1 == sel[j];
        var p := order[m].0.Position();
        FlagIsSingleBit(p, i);
      }
      if i < 7 && E.ListedFlags[i] in nsOpts {
        ListedFlagPosition(i);
        var f := E.ListedFlags[i];
        var m :| 0 <= m < |order| && order[m].0 == f;
        assert keep(order[m].0) && order[m].1 == AllFlags[i];
        assert AllFlags[i] in sel;
        var j :| 0 <= j < |sel| && sel[j] == AllFlags[i];
        FlagIsSingleBit(i, i);
      }
    }
  }

  /**
   `nsOpts.regex` contains a flag exactly when `nsOpts` holds the same-named
   engine flag, and never sets a bit beyond the seven declared ones: its raw
   value is at most 127.
   */
  lemma RegexMembership(order: seq<(E.EngineFlag, RegExpOptions)>, nsOpts: E.EngineOptionSet)
    requires IsTraversal(order, NsToRegExpTable)
    ensures forall f :: f in NsToRegExpTable ==> (Contains(Regex(order, nsOpts), NsToRegExpTable[f]) <==> f in nsOpts)
    ensures WithinDeclaredBits(Regex(order, nsOpts))
  {
    ForwardTableShape();
    RegexBits(order, nsOpts);
    forall f | f in NsToRegExpTable
      ensures Contains(Regex(order, nsOpts), NsToRegExpTable[f]) <==> f in nsOpts
    {
      ContainsFlag(Regex(order, nsOpts), f.Position());
    }
    WithinDeclaredBitsIffNoHighBit(Regex(order, nsOpts));
  }

  /** `ns` gives the same set whatever order it traverses the inverse table in. */
  lemma NsIndependentOfOrder(order1: seq<(RegExpOptions, E.EngineFlag)>, order2: seq<(RegExpOptions, E.EngineFlag)>, opts: RegExpOptions)
    requires IsTraversal(order1, RegExpToNsTable) && IsTraversal(order2, RegExpToNsTable)
    ensures Ns(order1, opts) == Ns(order2, opts)
  {
    NsMembership(order1, opts);
    NsMembership(order2, opts);
  }

  /** `regex` gives the same option set whatever order it traverses the forward table in. */
  lemma RegexIndependentOfOrder(order1: seq<(E.EngineFlag, RegExpOptions)>, order2: seq<(E.EngineFlag, RegExpOptions)>, nsOpts: E.EngineOptionSet)
    requires IsTraversal(order1, NsToRegExpTable) && IsTraversal(order2, NsToRegExpTable)
    ensures Regex(order1, nsOpts) == Regex(order2, nsOpts)
  {
    RegexBits(order1, nsOpts);
    RegexBits(order2, nsOpts);
    SameBitsSameNumber(Regex(order1, nsOpts).rawValue, Regex(order2, nsOpts).rawValue);
  }

  /** Bits of `opts` beyond the seven declared ones have no effect on `opts.ns`. */
  lemma NsIgnoresUndeclaredBits(order: seq<(RegExpOptions, E.EngineFlag)>, opts: RegExpOptions)
    requires IsTraversal(order, RegExpToNsTable)
    ensures Ns(order, opts) == Ns(order, Intersection(opts, AllDeclared))
  {
    NsMembership(order, opts);
    NsMembership(order, Intersection(opts, AllDeclared));
    MaskKeepsDeclaredBits(opts);
  }

  /** `ns` maps a union to the union of the images, and the empty set to the empty set. */
  lemma NsPreservesUnion(order: seq<(RegExpOptions, E.EngineFlag)>, a: RegExpOptions, b: RegExpOptions)
    requires IsTraversal(order, RegExpToNsTable)
    ensures Ns(order, Union(a, b)) == Ns(order, a) + Ns(order, b)
    ensures Ns(order, Empty) == {}
  {
    NsMembership(order, Union(a, b));
    NsMembership(order, a);
    NsMembership(order, b);
    NsMembership(order, Empty);
    forall f: E.EngineFlag | !f.Unlisted?
      ensures HasBit(Union(a, b).rawValue, f.Position()) <==> HasBit(a.rawValue, f.Position()) || HasBit(b.rawValue, f.Position())
      ensures !HasBit(Empty.rawValue, f.Position())
    {
      HasBitUnion(a, b, f.Position());
      NoBitOfZero(f.Position());
    }
  }

  /** `regex` maps a union to the union of the images, and the empty set to the empty set. */
  lemma RegexPreservesUnion(order: seq<(E.EngineFlag, RegExpOptions)>, x: E.EngineOptionSet, y: E.EngineOptionSet)
    requires IsTraversal(order, NsToRegExpTable)
    ensures Regex(order, x + y) == Union(Regex(order, x), Regex(order, y))
    ensures Regex(order, {}) == Empty
  {
    RegexBits(order, x + y);
    RegexBits(order, x);
    RegexBits(order, y);
    RegexBits(order, {});
    forall i: nat
      ensures HasBit(Regex(order, x + y).rawValue, i) <==> HasBit(Union(Regex(order, x), Regex(order, y)).rawValue, i)
      ensures HasBit(Regex(order, {}).rawValue, i) <==> HasBit(Empty.rawValue, i)
    {
      HasBitUnion(Regex(order, x), Regex(order, y), i);
      NoBitOfZero(i);
    }
    SameBitsSameNumber(Regex(order, x + y).rawValue, Union(Regex(order, x), Regex(order, y)).rawValue);
    SameBitsSameNumber(Regex(order, {}).rawValue, Empty.rawValue);
  }

  /**
   Round trip from `RegExpOptions`: `opts.ns.regex` is `opts` with every bit
   beyond the seven declared ones cleared, so it is `opts` itself whenever the
   raw value is at most 127.
   */
  lemma RegexOfNs(nsOrder: seq<(RegExpOptions, E.EngineFlag)>, regexOrder: seq<(E.EngineFlag, RegExpOptions)>, opts: RegExpOptions)
    requires IsTraversal(nsOrder, RegExpToNsTable) && IsTraversal(regexOrder, NsToRegExpTable)
    ensures Regex(regexOrder, Ns(nsOrder, opts)) == Intersection(opts, AllDeclared)
    ensures WithinDeclaredBits(opts) ==> Regex(regexOrder, Ns(nsOrder, opts)) == opts
  {
    var back := Regex(regexOrder, Ns(nsOrder, opts));
    NsMembership(nsOrder, opts);
    RegexBits(regexOrder, Ns(nsOrder, opts));
    MaskKeepsDeclaredBits(opts);
    forall i: nat
      ensures HasBit(back.rawValue, i) <==> HasBit(Intersection(opts, AllDeclared).rawValue, i)
    {
      if i < 7 {
        ListedFlagPosition(i);
      }
    }
    SameBitsSameNumber(back.rawValue, Intersection(opts, AllDeclared).rawValue);
  }

  /**
   Round trip from the engine: `nsOpts.regex.ns` is `nsOpts` restricted to the
   seven listed engine flags.
   */
  lemma NsOfRegex(nsOrder: seq<(RegExpOptions, E.EngineFlag)>, regexOrder: seq<(E.EngineFlag, RegExpOptions)>, nsOpts: E.EngineOptionSet)
    requires IsTraversal(nsOrder, RegExpToNsTable) && IsTraversal(regexOrder, NsToRegExpTable)
    ensures Ns(nsOrder, Regex(regexOrder, nsOpts)) == nsOpts * NsToRegExpTable.Keys
  {
    ForwardTableShape();
    NsMembership(nsOrder, Regex(regexOrder, nsOpts));
    RegexBits(regexOrder, nsOpts);
  }

  /** `default.ns` is exactly the engine's case-insensitive flag. */
  lemma NsOfDefault(order: seq<(RegExpOptions, E.EngineFlag)>)
    requires IsTraversal(order, RegExpToNsTable)
    ensures Ns(order, Default) == {E.CaseInsensitive}
  {
    NsMembership(order, Default);
    DefaultIsCaseInsensitiveOnly();
    forall f: E.EngineFlag | !f.Unlisted?
      ensures HasBit(Default.rawValue, f.Position()) <==> f == E.CaseInsensitive
    {
      HasBitPow2(0, f.Position());
    }
  }
}
