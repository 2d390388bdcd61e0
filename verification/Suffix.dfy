/** The unit suffixes of a quantity and the formats they belong to (`resource/suffix.go`). */
module Suffix {
  import opened Wrappers
  import opened Int64Math
  import opened Digits

  /** OtherFormat stands for every other string, such as the empty one of an unset quantity. */
  datatype Format = DecimalExponent | BinarySI | DecimalSI | OtherFormat

  datatype BePair = BePair(base: int, exponent: int)

  datatype Interpretation = Interpretation(pair: BePair, format: Format)

  // ----- the tables

  function DecSuffix(s: string): Option<BePair> {
    if s == "" then Some(BePair(10, 0))
    else if s == "n" then Some(BePair(10, -9))
    else if s == "u" then Some(BePair(10, -6))
    else if s == "m" then Some(BePair(10, -3))
    else if s == "k" then Some(BePair(10, 3))
    else if s == "M" then Some(BePair(10, 6))
    else if s == "G" then Some(BePair(10, 9))
    else if s == "T" then Some(BePair(10, 12))
    else if s == "P" then Some(BePair(10, 15))
    else if s == "E" then Some(BePair(10, 18))
    else None
  }

  function BinSuffix(s: string): Option<BePair> {
    if s == "Ki" then Some(BePair(2, 10))
    else if s == "Mi" then Some(BePair(2, 20))
    else if s == "Gi" then Some(BePair(2, 30))
    else if s == "Ti" then Some(BePair(2, 40))
    else if s == "Pi" then Some(BePair(2, 50))
    else if s == "Ei" then Some(BePair(2, 60))
    else None
  }

  function DecName(p: BePair): Option<string> {
    if p == BePair(2, 0) then Some("")
    else if p.base != 10 then None
    else if p.exponent == -9 then Some("n")
    else if p.exponent == -6 then Some("u")
    else if p.exponent == -3 then Some("m")
    else if p.exponent == 0 then Some("")
    else if p.exponent == 3 then Some("k")
    else if p.exponent == 6 then Some("M")
    else if p.exponent == 9 then Some("G")
    else if p.exponent == 12 then Some("T")
    else if p.exponent == 15 then Some("P")
    else if p.exponent == 18 then Some("E")
    else None
  }

  function BinName(p: BePair): Option<string> {
    if p.base != 2 then None
    else if p.exponent == 10 then Some("Ki")
    else if p.exponent == 20 then Some("Mi")
    else if p.exponent == 30 then Some("Gi")
    else if p.exponent == 40 then Some("Ti")
    else if p.exponent == 50 then Some("Pi")
    else if p.exponent == 60 then Some("Ei")
    else None
  }

  class ListSuffixer {
    var suffixToBE: map<string, BePair>
    var beToSuffix: map<BePair, string>
    var beToSuffixBytes: map<BePair, string>

    constructor ()
      ensures suffixToBE == map[] && beToSuffix == map[] && beToSuffixBytes == map[]
    {
      suffixToBE, beToSuffix, beToSuffixBytes := map[], map[], map[];
    }

    method AddSuffix(s: string, pair: BePair)
      modifies this
      ensures suffixToBE == old(suffixToBE)[s := pair]
      ensures beToSuffix == old(beToSuffix)[pair := s]
      ensures beToSuffixBytes == old(beToSuffixBytes)[pair := s]
    {
      suffixToBE := suffixToBE[s := pair];
      beToSuffix := beToSuffix[pair := s];
      beToSuffixBytes := beToSuffixBytes[pair := s];
    }
  }

  // What NewSuffixer fills the maps with; 2^0 has a name only so that it can be printed.
  const BIN_UNITS: map<string, BePair> := map[
    "Ki" := BePair(2, 10), "Mi" := BePair(2, 20), "Gi" := BePair(2, 30),
    "Ti" := BePair(2, 40), "Pi" := BePair(2, 50), "Ei" := BePair(2, 60)]
  const BIN_NAMES: map<BePair, string> := map[
    BePair(2, 10) := "Ki", BePair(2, 20) := "Mi", BePair(2, 30) := "Gi",
    BePair(2, 40) := "Ti", BePair(2, 50) := "Pi", BePair(2, 60) := "Ei"]
  const DEC_UNITS: map<string, BePair> := map[
    "" := BePair(2, 0), "n" := BePair(10, -9), "u" := BePair(10, -6), "m" := BePair(10, -3),
    "" := BePair(10, 0), "k" := BePair(10, 3), "M" := BePair(10, 6), "G" := BePair(10, 9),
    "T" := BePair(10, 12), "P" := BePair(10, 15), "E" := BePair(10, 18)]
  const DEC_NAMES: map<BePair, string> := map[
    BePair(2, 0) := "", BePair(10, -9) := "n", BePair(10, -6) := "u", BePair(10, -3) := "m",
    BePair(10, 0) := "", BePair(10, 3) := "k", BePair(10, 6) := "M", BePair(10, 9) := "G",
    BePair(10, 12) := "T", BePair(10, 15) := "P", BePair(10, 18) := "E"]

  lemma BinMapsMatchTables(s: string, p: BePair)
    ensures BinSuffix(s) == if s in BIN_UNITS then Some(BIN_UNITS[s]) else None
    ensures BinName(p) == if p in BIN_NAMES then Some(BIN_NAMES[p]) else None
  {
  }

  lemma DecUnitsMatchTable(s: string)
    ensures DecSuffix(s) == if s in DEC_UNITS then Some(DEC_UNITS[s]) else None
  {
  }

  lemma DecNamesMatchTable(p: BePair)
    ensures DecName(p) == if p in DEC_NAMES then Some(DEC_NAMES[p]) else None
  {
  }

  method NewBinSuffixes() returns (bin: ListSuffixer)
    ensures fresh(bin) && bin.suffixToBE == BIN_UNITS && bin.beToSuffix == bin.beToSuffixBytes == BIN_NAMES
  {
    bin := new ListSuffixer();
    bin.AddSuffix("Ki", BePair(2, 10));
    bin.AddSuffix("Mi", BePair(2, 20));
    bin.AddSuffix("Gi", BePair(2, 30));
    bin.AddSuffix("Ti", BePair(2, 40));
    bin.AddSuffix("Pi", BePair(2, 50));
    bin.AddSuffix("Ei", BePair(2, 60));
  }

  method NewDecSuffixes() returns (dec: ListSuffixer)
    ensures fresh(dec) && dec.suffixToBE == DEC_UNITS && dec.beToSuffix == dec.beToSuffixBytes == DEC_NAMES
  {
    dec := new ListSuffixer();
    dec.AddSuffix("", BePair(2, 0));
    dec.AddSuffix("n", BePair(10, -9));
    dec.AddSuffix("u", BePair(10, -6));
    dec.AddSuffix("m", BePair(10, -3));
    dec.AddSuffix("", BePair(10, 0));
    dec.AddSuffix("k", BePair(10, 3));
    dec.AddSuffix("M", BePair(10, 6));
    dec.AddSuffix("G", BePair(10, 9));
    dec.AddSuffix("T", BePair(10, 12));
    dec.AddSuffix("P", BePair(10, 15));
    dec.AddSuffix("E", BePair(10, 18));
  }

  // ----- reading

  /** What an int32 register holds after converting `x`. */
  function Wrap32(x: int): (w: int)
    ensures -0x8000_0000 <= w < 0x8000_0000
    ensures w == x <==> -0x8000_0000 <= x < 0x8000_0000
  {
    (x + 0x8000_0000) % 0x1_0000_0000 - 0x8000_0000
  }

  /** Powers of 1024 are exactly the units of BinarySI. */
  predicate IsUnit(i: Interpretation) {
    match i.format
    case BinarySI => i.pair.base == 2 && 10 <= i.pair.exponent <= 60 && i.pair.exponent % 10 == 0
    case _ => i.pair.base == 10 && -0x8000_0000 <= i.pair.exponent < 0x8000_0000 && i.format != OtherFormat
  }

  function InterpretInTables(s: string): Option<Interpretation> {
    match DecSuffix(s)
    case Some(p) => Some(Interpretation(p, DecimalSI))
    case None =>
      match BinSuffix(s)
      case Some(p) => Some(Interpretation(p, BinarySI))
      case None =>
        if |s| > 1 && (s[0] == 'E' || s[0] == 'e') then
          var parsed := ParseInt(s[1..]);
          if parsed.1 then Some(Interpretation(BePair(10, Wrap32(parsed.0)), DecimalExponent)) else None
        else None
  }

  /** The most common suffixes are answered without the tables. */
  function Interpret(s: string): (r: Option<Interpretation>)
    ensures r == InterpretInTables(s)
    ensures r.Some? ==> IsUnit(r.value)
  {
    if s == "" then Some(Interpretation(BePair(10, 0), DecimalSI))
    else if s == "n" then Some(Interpretation(BePair(10, -9), DecimalSI))
    else if s == "u" then Some(Interpretation(BePair(10, -6), DecimalSI))
    else if s == "m" then Some(Interpretation(BePair(10, -3), DecimalSI))
    else if s == "k" then Some(Interpretation(BePair(10, 3), DecimalSI))
    else if s == "M" then Some(Interpretation(BePair(10, 6), DecimalSI))
    else if s == "G" then Some(Interpretation(BePair(10, 9), DecimalSI))
    else InterpretInTables(s)
  }

  // ----- printing

  function ConstructBytes(base: int, exponent: int, format: Format): Option<string> {
    match format
    case DecimalSI => DecName(BePair(base, exponent))
    case BinarySI => BinName(BePair(base, exponent))
    case DecimalExponent =>
      if base != 10 then None else if exponent == 0 then Some("") else Some("e" + RenderInt(exponent))
    case OtherFormat => None
  }

  /** A printed suffix reads back as the same unit, up to the width of an int32 exponent. */
  lemma ConstructedSuffixReadsBack(base: int, exponent: int, format: Format)
    requires base == 10 || format == BinarySI
    requires ConstructBytes(base, exponent, format).Some?
    ensures var r := Interpret(ConstructBytes(base, exponent, format).value);
            && (r.None? <==> format == DecimalExponent && !IsInt64(exponent))
            && (r.Some? ==> r.value.pair == BePair(base, Wrap32(exponent)))
            && (r.Some? ==> r.value.format == if format == DecimalExponent && exponent == 0 then DecimalSI else format)
  {
    match format
    case DecimalSI => DecNameReadsBack(exponent);
    case BinarySI => BinNameReadsBack(base, exponent);
    case DecimalExponent =>
      if exponent != 0 { ExponentReadsBack(exponent); }
  }

  lemma DecNameReadsBack(exponent: int)
    requires DecName(BePair(10, exponent)).Some?
    ensures Interpret(DecName(BePair(10, exponent)).value) == Some(Interpretation(BePair(10, exponent), DecimalSI))
    ensures Wrap32(exponent) == exponent
  {
    hide ParseInt;
  }

  lemma BinNameReadsBack(base: int, exponent: int)
    requires BinName(BePair(base, exponent)).Some?
    ensures Interpret(BinName(BePair(base, exponent)).value) == Some(Interpretation(BePair(base, exponent), BinarySI))
    ensures Wrap32(exponent) == exponent
  {
    hide ParseInt;
  }

  lemma ExponentReadsBack(exponent: int)
    ensures Interpret("e" + RenderInt(exponent)) ==
            if IsInt64(exponent) then Some(Interpretation(BePair(10, Wrap32(exponent)), DecimalExponent)) else None
  {
    hide ParseInt, RenderInt, Wrap32;
    var s := "e" + RenderInt(exponent);
    assert s[1..] == RenderInt(exponent);
    RenderIntStart(exponent);
    ParseIntRender(exponent);
  }

  lemma RenderIntStart(n: int)
    ensures RenderInt(n) != "" && (RenderInt(n)[0] == '-' || IsDigit(RenderInt(n)[0]))
  {
  }
}
