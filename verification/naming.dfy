/** File names of the tiles: `subimage_<column+1>_<row+1>.jpg`, with
    1-based indices, column first. */
module Naming {
  import opened Outcome
  import opened Grid
  import Decimal

  const Prefix: string := "subimage_"
  const Suffix: string := ".jpg"

  /** The file name of the tile in column `i`, row `j` (both 0-based). The
      `u32` additions `i + 1` and `j + 1` must not overflow. */
  function TileName(i: u32, j: u32): (name: string)
    requires i < 0xFFFF_FFFF && j < 0xFFFF_FFFF
    ensures |name| >= |Prefix| + 3 + |Suffix|
    ensures name[..|Prefix|] == Prefix && name[|name| - |Suffix|..] == Suffix
  {
    Prefix + Decimal.Show((i + 1) as nat) + "_" + Decimal.Show((j + 1) as nat) + Suffix
  }

  /** Index of the first `c` in `s`, or `|s|` when there is none. */
  function IndexOf(s: string, c: char): (k: nat)
    ensures k <= |s|
    ensures forall m :: 0 <= m < k ==> s[m] != c
    ensures k < |s| ==> s[k] == c
  {
    if s == [] then 0 else if s[0] == c then 0 else 1 + IndexOf(s[1..], c)
  }

  /** The text between the prefix and the suffix, when `name` has both. */
  function StripAffixes(name: string): Option<string> {
    if |name| < |Prefix| + |Suffix| || name[..|Prefix|] != Prefix || name[|name| - |Suffix|..] != Suffix then None
    else Some(name[|Prefix|..|name| - |Suffix|])
  }

  /** The text before and after the first `_`, when there is one. */
  function SplitAtUnderscore(s: string): Option<(string, string)> {
    var k := IndexOf(s, '_');
    if k == |s| then None else Some((s[..k], s[k + 1..]))
  }

  /** The 0-based index written as a 1-based numeral without leading
      zeros, when `s` is one. */
  function ParseIndex(s: string): Option<nat> {
    if !Decimal.IsCanonical(s) then None
    else
      var n := Decimal.Parse(s);
      if n == 0 then None else Some(n - 1)
  }

  /** Recovers the 0-based column and row from a tile file name, or `None`
      when the text is not such a name. */
  function ParseName(name: string): Option<(nat, nat)> {
    match StripAffixes(name)
    case None => None
    case Some(middle) =>
      match SplitAtUnderscore(middle)
      case None => None
      case Some((column, row)) =>
        match (ParseIndex(column), ParseIndex(row))
        case (Some(c), Some(r)) => Some((c, r))
        case _ => None
  }

  /** The first `c` in `a + [c] + b` is right after `a` when `a` holds no `c`. */
  lemma {:induction false} IndexOfAfter(a: string, c: char, b: string)
    requires c !in a
    ensures IndexOf(a + [c] + b, c) == |a|
  {
    if a != [] {
      assert (a + [c] + b)[1..] == a[1..] + [c] + b;
      IndexOfAfter(a[1..], c, b);
    }
  }

  lemma StripAffixesOf(middle: string)
    ensures StripAffixes(Prefix + middle + Suffix) == Some(middle)
  {
    var name := Prefix + middle + Suffix;
    assert name[..|Prefix|] == Prefix;
    assert name[|name| - |Suffix|..] == Suffix;
    assert name[|Prefix|..|name| - |Suffix|] == middle;
  }

  lemma SplitAtUnderscoreOf(a: string, b: string)
    requires '_' !in a
    ensures SplitAtUnderscore(a + "_" + b) == Some((a, b))
  {
    var s := a + "_" + b;
    IndexOfAfter(a, '_', b);
    assert s[..|a|] == a;
    assert s[|a| + 1..] == b;
  }

  lemma ParseIndexOf(n: nat)
    ensures ParseIndex(Decimal.Show(n + 1)) == Some(n)
  {
    Decimal.ParseShow(n + 1);
  }

  /** Reading a tile's file name gives back its column and row. */
  lemma NameRoundTrip(i: u32, j: u32)
    requires i < 0xFFFF_FFFF && j < 0xFFFF_FFFF
    ensures ParseName(TileName(i, j)) == Some((i as nat, j as nat))
  {
    var column, row := Decimal.Show((i + 1) as nat), Decimal.Show((j + 1) as nat);
    assert TileName(i, j) == Prefix + (column + "_" + row) + Suffix;
    StripAffixesOf(column + "_" + row);
    assert '_' !in column;
    SplitAtUnderscoreOf(column, row);
    ParseIndexOf(i as nat);
    ParseIndexOf(j as nat);
  }

  lemma StripAffixesInverse(name: string, middle: string)
    requires StripAffixes(name) == Some(middle)
    ensures name == Prefix + middle + Suffix
  {
    assert name == name[..|Prefix|] + name[|Prefix|..|name| - |Suffix|] + name[|name| - |Suffix|..];
  }

  lemma SplitAtUnderscoreInverse(s: string, a: string, b: string)
    requires SplitAtUnderscore(s) == Some((a, b))
    ensures s == a + "_" + b
  {
    var k := IndexOf(s, '_');
    assert s == s[..k] + [s[k]] + s[k + 1..];
  }

  lemma ParseIndexInverse(s: string, n: nat)
    requires ParseIndex(s) == Some(n)
    ensures s == Decimal.Show(n + 1)
  {
    Decimal.ShowParse(s);
  }

  lemma AssembleName(name: string, middle: string, column: string, row: string, i: u32, j: u32)
    requires i < 0xFFFF_FFFF && j < 0xFFFF_FFFF
    requires name == Prefix + middle + Suffix && middle == column + "_" + row
    requires column == Decimal.Show((i + 1) as nat) && row == Decimal.Show((j + 1) as nat)
    ensures name == TileName(i, j)
  {
  }

  /** The only text that parses as the name of cell `(i, j)` is
      `TileName(i, j)`: parsing pins the file name character by character. */
  lemma ParsedNameIsTileName(name: string, i: u32, j: u32)
    requires i < 0xFFFF_FFFF && j < 0xFFFF_FFFF
    requires ParseName(name) == Some((i as nat, j as nat))
    ensures name == TileName(i, j)
  {
    var middle := StripAffixes(name).value;
    var (column, row) := SplitAtUnderscore(middle).value;
    assert ParseIndex(column) == Some(i as nat) && ParseIndex(row) == Some(j as nat);
    StripAffixesInverse(name, middle);
    SplitAtUnderscoreInverse(middle, column, row);
    ParseIndexInverse(column, i as nat);
    ParseIndexInverse(row, j as nat);
    AssembleName(name, middle, column, row, i, j);
  }

  /** A text is the file name of cell `(i, j)` if and only if it parses as
      that cell. */
  lemma NameIff(name: string, i: u32, j: u32)
    requires i < 0xFFFF_FFFF && j < 0xFFFF_FFFF
    ensures ParseName(name) == Some((i as nat, j as nat)) <==> name == TileName(i, j)
  {
    NameRoundTrip(i, j);
    if ParseName(name) == Some((i as nat, j as nat)) {
      ParsedNameIsTileName(name, i, j);
    }
  }

  /** Different cells get different file names, so no tile overwrites
      another. */
  lemma NamesDistinct(i: u32, j: u32, i': u32, j': u32)
    requires i < 0xFFFF_FFFF && j < 0xFFFF_FFFF && i' < 0xFFFF_FFFF && j' < 0xFFFF_FFFF
    requires i != i' || j != j'
    ensures TileName(i, j) != TileName(i', j')
  {
    NameRoundTrip(i, j);
    NameRoundTrip(i', j');
  }

  /** The first tile is `subimage_1_1.jpg`; column 3, row 2 (1-based) is
      `subimage_3_2.jpg`. */
  lemma NameExamples()
    ensures TileName(0, 0) == "subimage_1_1.jpg"
    ensures TileName(2, 1) == "subimage_3_2.jpg"
  {
  }

  /** A name whose column has a leading zero is not a tile name. */
  lemma LeadingZeroRejected()
    ensures ParseName("subimage_01_1.jpg") == None
  {
    assert "subimage_01_1.jpg" == Prefix + "01_1" + Suffix;
    StripAffixesOf("01_1");
    assert "01_1" == "01" + "_" + "1";
    SplitAtUnderscoreOf("01", "1");
    assert !Decimal.IsCanonical("01");
  }
}
