/** The store's record keys are strings glued together with separators. What can and cannot
    be read back out of them. */
module Keys {

  predicate Free(s: string, separator: char) {
    separator !in s
  }

  lemma EarlierSeparator(a: string, x: string, b: string, y: string, separator: char)
    requires |a| < |b| && a + [separator] + x == b + [separator] + y
    ensures separator in b
  {
    assert separator == (a + [separator] + x)[|a|] == b[|a|];
  }

  /** Up to the first separator. */
  lemma SplitFirst(a: string, x: string, b: string, y: string, separator: char)
    requires Free(a, separator) && Free(b, separator)
    requires a + [separator] + x == b + [separator] + y
    ensures a == b && x == y
  {
    if |a| < |b| {
      EarlierSeparator(a, x, b, y, separator);
    } else if |b| < |a| {
      EarlierSeparator(b, y, a, x, separator);
    } else {
      var whole := a + [separator] + x;
      assert a == whole[..|a|] == b && x == whole[|a| + 1..] == y;
    }
  }

  lemma LaterSeparator(x: string, a: string, y: string, b: string, separator: char)
    requires |x| < |y| && x + [separator] + a == y + [separator] + b
    ensures separator in a
  {
    assert separator == (x + [separator] + a)[|y|] == a[|y| - |x| - 1];
  }

  /** From the last separator. */
  lemma SplitLast(x: string, a: string, y: string, b: string, separator: char)
    requires Free(a, separator) && Free(b, separator)
    requires x + [separator] + a == y + [separator] + b
    ensures x == y && a == b
  {
    if |x| < |y| {
      LaterSeparator(x, a, y, b, separator);
    } else if |y| < |x| {
      LaterSeparator(y, b, x, a, separator);
    } else {
      var whole := x + [separator] + a;
      assert x == whole[..|x|] == y && a == whole[|x| + 1..] == b;
    }
  }

  /** Parts joined by underscores. */
  function Join(parts: seq<string>): string
    requires parts != []
  {
    if |parts| == 1 then parts[0] else parts[0] + "_" + Join(parts[1..])
  }

  lemma JoinCons(a: string, x: seq<string>)
    requires x != []
    ensures Join([a] + x) == a + "_" + Join(x)
  {
    assert ([a] + x)[1..] == x;
  }

  lemma JoinThree(a: string, b: string, c: string)
    ensures Join([a, b, c]) == a + "_" + (b + "_" + c)
  {
    JoinCons(b, [c]);
    JoinCons(a, [b, c]);
    assert [a] + [b, c] == [a, b, c] && [b] + [c] == [b, c];
  }

  /** A part without underscores can be read off the front. */
  lemma JoinFirst(a: string, x: seq<string>, b: string, y: seq<string>)
    requires Free(a, '_') && Free(b, '_') && x != [] && y != []
    requires Join([a] + x) == Join([b] + y)
    ensures a == b && Join(x) == Join(y)
  {
    JoinCons(a, x);
    JoinCons(b, y);
    SplitFirst(a, Join(x), b, Join(y), '_');
  }

  // ---------- numerals ----------

  function Digit(d: nat): (c: char)
    requires d < 16
    ensures c != '_'
  {
    if d < 10 then '0' + d as char else 'a' + (d - 10) as char
  }

  lemma DigitIsInjective(d: nat, e: nat)
    requires d < 16 && e < 16 && Digit(d) == Digit(e)
    ensures d == e
  {
  }

  /** Lower-case numerals, as `{}` and `{:x}` print them. */
  function Numeral(n: nat, radix: nat): (s: string)
    requires radix == 10 || radix == 16
    ensures s != "" && Free(s, '_')
    decreases n
  {
    if n < radix then [Digit(n)] else Numeral(n / radix, radix) + [Digit(n % radix)]
  }

  lemma QuotientAndRemainder(m: nat, n: nat, radix: nat)
    requires radix == 10 || radix == 16
    requires m / radix == n / radix && m % radix == n % radix
    ensures m == n
  {
    if radix == 10 {
      assert m == 10 * (m / 10) + m % 10;
    } else {
      assert m == 16 * (m / 16) + m % 16;
    }
  }

  lemma {:induction false} NumeralIsInjective(m: nat, n: nat, radix: nat)
    requires (radix == 10 || radix == 16) && Numeral(m, radix) == Numeral(n, radix)
    ensures m == n
    decreases m
  {
    hide Digit;
    if m < radix && n < radix {
      assert Numeral(m, radix)[0] == Digit(m) && Numeral(n, radix)[0] == Digit(n);
      DigitIsInjective(m, n);
    } else if m >= radix && n >= radix {
      var p, q := Numeral(m / radix, radix), Numeral(n / radix, radix);
      assert p == (p + [Digit(m % radix)])[..|p|] && q == (q + [Digit(n % radix)])[..|q|];
      assert Digit(m % radix) == (p + [Digit(m % radix)])[|p|] == (q + [Digit(n % radix)])[|q|] == Digit(n % radix);
      NumeralIsInjective(m / radix, n / radix, radix);
      DigitIsInjective(m % radix, n % radix);
      QuotientAndRemainder(m, n, radix);
    }
  }

  // ---------- two names and a separator ----------

  function Glue(ns: string, separator: char, id: string): string {
    ns + [separator] + id
  }

  /** The second pair moves a part of the first pair's id, up to a separator, into its wall. */
  ghost predicate Shifts(ns: string, id: string, ns': string, id': string, separator: char) {
    exists x: string :: ns' == Glue(ns, separator, x) && id == Glue(x, separator, id')
  }

  lemma GlueShifted(ns: string, x: string, id: string, separator: char)
    ensures Glue(Glue(ns, separator, x), separator, id) == Glue(ns, separator, Glue(x, separator, id))
  {
  }

  lemma {:induction false} LongerNameShifts(ns: string, id: string, ns': string, id': string, separator: char)
    requires |ns| < |ns'| && Glue(ns, separator, id) == Glue(ns', separator, id')
    ensures Shifts(ns, id, ns', id', separator)
  {
    var whole := Glue(ns, separator, id);
    var x := ns'[|ns| + 1..];
    assert ns' == whole[..|ns'|] && ns == whole[..|ns|] && whole[|ns|] == separator;
    assert ns' == Glue(ns, separator, x);
    assert id == whole[|ns| + 1..] == Glue(x, separator, id');
  }

  /** Two pairs glue to the same text exactly when they are the same pair or one shifts a part
      of the other's id into the wall. */
  lemma GluedAlikeIff(ns: string, id: string, ns': string, id': string, separator: char)
    ensures Glue(ns, separator, id) == Glue(ns', separator, id') <==>
            (ns == ns' && id == id') || Shifts(ns, id, ns', id', separator) || Shifts(ns', id', ns, id, separator)
  {
    if Glue(ns, separator, id) == Glue(ns', separator, id') {
      if |ns| < |ns'| {
        LongerNameShifts(ns, id, ns', id', separator);
      } else if |ns'| < |ns| {
        LongerNameShifts(ns', id', ns, id, separator);
      } else {
        var whole := Glue(ns, separator, id);
        assert ns == whole[..|ns|] == ns' && id == whole[|ns| + 1..] == id';
      }
    }
    if x: string :| ns' == Glue(ns, separator, x) && id == Glue(x, separator, id') {
      GlueShifted(ns, x, id', separator);
    }
    if x: string :| ns == Glue(ns', separator, x) && id' == Glue(x, separator, id) {
      GlueShifted(ns', x, id, separator);
    }
  }

  /** The longer name is the shorter one, the separator, and more. */
  predicate Extends(longer: string, shorter: string, separator: char) {
    shorter + [separator] <= longer
  }

  ghost predicate CanCollide(ns: string, ns': string, separator: char) {
    exists id: string, id': string :: (ns != ns' || id != id') && Glue(ns, separator, id) == Glue(ns', separator, id')
  }

  /** Two wall names leave room for different pairs with one key exactly when one extends the
      other by the separator. */
  lemma NamesCollideIff(ns: string, ns': string, separator: char)
    ensures CanCollide(ns, ns', separator) <==> Extends(ns, ns', separator) || Extends(ns', ns, separator)
  {
    forall id: string, id': string | Glue(ns, separator, id) == Glue(ns', separator, id') && (ns != ns' || id != id')
      ensures Extends(ns, ns', separator) || Extends(ns', ns, separator)
    {
      GluedAlikeIff(ns, id, ns', id', separator);
    }
    if Extends(ns', ns, separator) {
      ExtensionCollides(ns, ns', separator);
    }
    if Extends(ns, ns', separator) {
      ExtensionCollides(ns', ns, separator);
    }
  }

  lemma ExtensionCollides(ns: string, ns': string, separator: char)
    requires Extends(ns', ns, separator)
    ensures CanCollide(ns, ns', separator) && CanCollide(ns', ns, separator)
  {
    var x := ns'[|ns| + 1..];
    assert ns' == Glue(ns, separator, x);
    GlueShifted(ns, x, "", separator);
    assert Glue(ns, separator, Glue(x, separator, "")) == Glue(ns', separator, "");
  }

  // ---------- the table keys ----------

  function MemoryKey(ns: string, id: string): string {
    ns + ":" + id
  }

  function DoctrineVersionKey(ns: string, id: string, version: nat): string {
    ns + "_" + id + "_v" + Numeral(version, 10)
  }

  /** Two memories share a key exactly when they are the same or one wall's name goes on, past
      a colon, into what the other has as id. */
  lemma MemoryKeysCollideIff(ns: string, id: string, ns': string, id': string)
    ensures MemoryKey(ns, id) == MemoryKey(ns', id') <==>
            (ns == ns' && id == id') || Shifts(ns, id, ns', id', ':') || Shifts(ns', id', ns, id, ':')
  {
    GluedAlikeIff(ns, id, ns', id', ':');
  }

  lemma VersionKeySplits(ns: string, id: string, v: nat, ns': string, id': string, v': nat)
    ensures DoctrineVersionKey(ns, id, v) == DoctrineVersionKey(ns', id', v')
            <==> v == v' && Glue(ns, '_', id) == Glue(ns', '_', id')
  {
    var a, b := "v" + Numeral(v, 10), "v" + Numeral(v', 10);
    assert DoctrineVersionKey(ns, id, v) == ns + "_" + id + "_" + a;
    assert DoctrineVersionKey(ns', id', v') == ns' + "_" + id' + "_" + b;
    if DoctrineVersionKey(ns, id, v) == DoctrineVersionKey(ns', id', v') {
      SplitLast(ns + "_" + id, a, ns' + "_" + id', b, '_');
      assert a[1..] == Numeral(v, 10) && b[1..] == Numeral(v', 10);
      NumeralIsInjective(v, v', 10);
    }
  }

  /** Two archived versions share a key exactly when their numbers agree and their documents
      are the same or one shifts a part of the other's id, up to an underscore, into the wall. */
  lemma VersionKeysCollideIff(ns: string, id: string, v: nat, ns': string, id': string, v': nat)
    ensures DoctrineVersionKey(ns, id, v) == DoctrineVersionKey(ns', id', v') <==>
            && v == v'
            && ((ns == ns' && id == id') || Shifts(ns, id, ns', id', '_') || Shifts(ns', id', ns, id, '_'))
  {
    VersionKeySplits(ns, id, v, ns', id', v');
    GluedAlikeIff(ns, id, ns', id', '_');
  }

  /** Within one wall a key determines what it was made from, whatever the id contains. */
  lemma KeysAreFaithfulWithinAWall(ns: string, id: string, v: nat, id': string, v': nat)
    ensures MemoryKey(ns, id) == MemoryKey(ns, id') <==> id == id'
    ensures DoctrineVersionKey(ns, id, v) == DoctrineVersionKey(ns, id', v') <==> id == id' && v == v'
  {
    MemoryKeysCollideIff(ns, id, ns, id');
    VersionKeysCollideIff(ns, id, v, ns, id', v');
  }

  /** A store's memory keys determine wall and id, whatever ids it holds, exactly when no wall
      name extends another by a colon. */
  lemma MemoryKeysAreFaithfulIff(walls: set<string>)
    ensures (forall ns, ns', id, id' | ns in walls && ns' in walls && MemoryKey(ns, id) == MemoryKey(ns', id') ::
               ns == ns' && id == id')
            <==> (forall ns, ns' | ns in walls && ns' in walls :: !Extends(ns', ns, ':'))
  {
    forall ns, ns' | ns in walls && ns' in walls
      ensures (forall id, id' | MemoryKey(ns, id) == MemoryKey(ns', id') :: ns == ns' && id == id')
              <==> !Extends(ns, ns', ':') && !Extends(ns', ns, ':')
    {
      NamesCollideIff(ns, ns', ':');
      forall id, id' ensures MemoryKey(ns, id) == Glue(ns, ':', id) && MemoryKey(ns', id') == Glue(ns', ':', id') {}
    }
  }

  /** Its version keys do exactly when none extends another by an underscore. */
  lemma VersionKeysAreFaithfulIff(walls: set<string>)
    ensures (forall ns, ns', id, id', v: nat, v': nat |
               ns in walls && ns' in walls && DoctrineVersionKey(ns, id, v) == DoctrineVersionKey(ns', id', v') ::
               ns == ns' && id == id' && v == v')
            <==> (forall ns, ns' | ns in walls && ns' in walls :: !Extends(ns', ns, '_'))
  {
    forall ns, ns' | ns in walls && ns' in walls
      ensures (forall id, id', v: nat, v': nat | DoctrineVersionKey(ns, id, v) == DoctrineVersionKey(ns', id', v') ::
                 ns == ns' && id == id' && v == v')
              <==> !Extends(ns, ns', '_') && !Extends(ns', ns, '_')
    {
      VersionNamesCollideIff(ns, ns');
    }
  }

  lemma VersionNamesCollideIff(ns: string, ns': string)
    ensures (forall id, id', v: nat, v': nat | DoctrineVersionKey(ns, id, v) == DoctrineVersionKey(ns', id', v') ::
               ns == ns' && id == id' && v == v')
            <==> !Extends(ns, ns', '_') && !Extends(ns', ns, '_')
  {
    hide DoctrineVersionKey, Glue, Extends;
    NamesCollideIff(ns, ns', '_');
    forall id, id', v: nat, v': nat
      ensures DoctrineVersionKey(ns, id, v) == DoctrineVersionKey(ns', id', v') <==>
              v == v' && Glue(ns, '_', id) == Glue(ns', '_', id')
    {
      VersionKeySplits(ns, id, v, ns', id', v');
    }
    if CanCollide(ns, ns', '_') {
      var id: string, id': string :| (ns != ns' || id != id') && Glue(ns, '_', id) == Glue(ns', '_', id');
      assert DoctrineVersionKey(ns, id, 0) == DoctrineVersionKey(ns', id', 0);
    }
  }

  /** Import walls whose names extend one another are both within a caller's reach. */
  lemma KeysCanCollideAcrossWalls()
    ensures MemoryKey("a", "b:c") == MemoryKey("a:b", "c")
    ensures DoctrineVersionKey("ns_import_a", "b_c", 1) == DoctrineVersionKey("ns_import_a_b", "c", 1)
  {
    assert "a" + ":" + "b:c" == "a:b" + ":" + "c";
    assert "ns_import_a" + "_" + "b_c" == "ns_import_a_b" + "_" + "c";
  }
}
