/**
  Field normalisation of backend/src/services/data_loader.py: the rating and cost
  parsers and the per-column clean-up that turns a raw CSV row into a table row.
  Reading the file (and the check that it exists) is I/O and is not modelled: the
  loader starts here from the rows pandas has read.
 */
module DataLoader {
  import opened Wrappers
  import Text
  import Numeric
  import opened Models

  /** A cell as pandas delivers it after reading the CSV: NaN, an int, a float, text, a bool, or another object. */
  datatype Value = Missing | IntVal(i: int) | RealVal(r: real) | StrVal(s: string) | BoolVal(b: bool) | OtherVal

  /** `int(b)`: True is 1 and False is 0. */
  function BoolToInt(b: bool): int {
    if b then 1 else 0
  }

  /** The six columns the loader reads, under their CSV names. */
  datatype RawRow = RawRow(
    name: Option<string>,
    location: Option<string>,
    restType: Option<string>,
    rate: Value,
    votes: Value,
    cost: Value)

  /** `s.lower() == "new"`. */
  predicate IsNewMarker(s: string) {
    |s| == 3 && (s[0] == 'n' || s[0] == 'N') && (s[1] == 'e' || s[1] == 'E') && (s[2] == 'w' || s[2] == 'W')
  }

  /**
    `_parse_rating`: only text is parsed; "NEW", "-" and blanks give `None`; of
    "4.1/5" only the part before the first '/' is read; a value outside [0, 5]
    gives `None`.
   */
  function ParseRating(v: Value): (r: Option<real>)
    ensures r.Some? ==> 0.0 <= r.value <= 5.0
    ensures r.Some? ==> v.StrVal? && Text.Strip(v.s) != "" && !IsNewMarker(Text.Strip(v.s)) && Text.Strip(v.s) != "-"
  {
    match v
    case StrVal(raw) =>
      var s := Text.Strip(raw);
      if s == "" || IsNewMarker(s) || s == "-" then None
      else
        var t := BeforeSlash(s);
        (match Numeric.ParseFloat(t)
         case None => None
         case Some(x) => if x < 0.0 || x > 5.0 then None else Some(x))
    case _ => None
  }

  /** `s.split("/", 1)[0].strip()` when `s` holds a '/', and `s` otherwise. */
  function BeforeSlash(s: string): string {
    if '/' in s then Text.Strip(s[..Text.FirstIndexIn(s, {'/'})]) else s
  }

  /** `s.replace(",", "")`. */
  function RemoveCommas(s: string): (r: string)
    ensures forall i :: 0 <= i < |r| ==> r[i] != ','
    ensures forall c :: c != ',' ==> (c in r <==> c in s)
  {
    if s == [] then []
    else if s[0] == ',' then RemoveCommas(s[1..])
    else [s[0]] + RemoveCommas(s[1..])
  }

  /** Text without commas is left as it is. */
  lemma {:induction false} RemoveCommasKeeps(s: string)
    requires forall i :: 0 <= i < |s| ==> s[i] != ','
    ensures RemoveCommas(s) == s
  {
    if s != [] {
      RemoveCommasKeeps(s[1..]);
    }
  }

  /** Removing commas distributes over concatenation. */
  lemma {:induction false} RemoveCommasAppend(a: string, b: string)
    ensures RemoveCommas(a + b) == RemoveCommas(a) + RemoveCommas(b)
  {
    if a == [] {
      assert a + b == b;
    } else {
      assert (a + b)[0] == a[0];
      assert (a + b)[1..] == a[1..] + b;
      RemoveCommasAppend(a[1..], b);
    }
  }

  /**
    `_parse_cost`: an int is kept, a float truncated, and a bool (a Python int)
    becomes 0 or 1; text loses its surrounding whitespace and every comma and is
    then read by `int(float(s))`; anything else gives `None`.
   */
  function ParseCost(v: Value): (r: Option<int>)
    ensures v.Missing? || v.OtherVal? ==> r.None?
    ensures v.IntVal? ==> r == Some(v.i)
    ensures v.RealVal? ==> r == Some(Numeric.Trunc(v.r))
    ensures v.BoolVal? ==> r == Some(if v.b then 1 else 0)
    ensures v.StrVal? && r.Some? ==> RemoveCommas(Text.Strip(v.s)) != ""
  {
    match v
    case Missing => None
    case IntVal(i) => Some(i)
    case RealVal(x) => Some(Numeric.Trunc(x))
    case StrVal(raw) =>
      var s := RemoveCommas(Text.Strip(raw));
      if s == "" then None
      else
        (match Numeric.ParseFloat(s)
         case None => None
         case Some(x) => Some(Numeric.Trunc(x)))
    case BoolVal(b) => Some(BoolToInt(b))
    case OtherVal => None
  }

  /**
    `pd.to_numeric(votes, errors="coerce").fillna(0).astype(int)` for one cell:
    numbers are truncated to ints, a bool becomes 0 or 1, numeric text is read,
    anything else becomes 0.
   */
  function CoerceVotes(v: Value): (n: int)
    ensures v.IntVal? ==> n == v.i
    ensures v.BoolVal? ==> n == (if v.b then 1 else 0)
    ensures v.Missing? || v.OtherVal? ==> n == 0
  {
    match v
    case IntVal(i) => i
    case RealVal(x) => Numeric.Trunc(x)
    case StrVal(s) =>
      (match Numeric.ParseFloat(s)
       case Some(x) => Numeric.Trunc(x)
       case None => 0)
    case BoolVal(b) => BoolToInt(b)
    case _ => 0
  }

  /** `astype(str)` of a text column: a missing cell becomes the text "nan". */
  function AsText(cell: Option<string>): string {
    cell.GetOr("nan")
  }

  /**
    The column-by-column clean-up of `load_zomato_csv` for one row: names and
    locations stringified, a missing type defaulted to "Unknown", rating and cost
    parsed, votes coerced. The loader does not read the `cuisines` column.
   */
  function NormaliseRow(raw: RawRow): Restaurant {
    Restaurant(
      name := AsText(raw.name),
      location := AsText(raw.location),
      restaurantType := raw.restType.GetOr("Unknown"),
      rating := ParseRating(raw.rate),
      votes := CoerceVotes(raw.votes),
      approxCostForTwo := ParseCost(raw.cost),
      cuisines := NoCuisines)
  }

  /**
    The table `load_zomato_csv` returns. `dropna(subset=["name", "location"])`
    runs after both columns were stringified, so it drops no row.
   */
  function LoadRows(raw: seq<RawRow>): seq<Restaurant> {
    seq(|raw|, i requires 0 <= i < |raw| => NormaliseRow(raw[i]))
  }

  // ----- properties of the rating parser -----

  /** Non-text cells, blanks, "new" in any letter case and "-" give no rating. */
  lemma ParseRatingRejects(v: Value)
    requires !v.StrVal? || Text.Strip(v.s) == "" || IsNewMarker(Text.Strip(v.s)) || Text.Strip(v.s) == "-"
    ensures ParseRating(v) == None
  {
  }

  /**
    Text made of a decimal number, a '/' and anything else reads as that number
    when it lies in [0, 5], and as no rating otherwise.
   */
  lemma ParseRatingBeforeSlash(num: string, rest: string)
    requires Numeric.ParseDecimal(num).Some?
    requires '/' !in num
    requires rest == [] || !Text.IsSpace(rest[|rest| - 1])
    ensures var x := Numeric.ParseDecimal(num).value;
            ParseRating(StrVal(num + "/" + rest)) == if 0.0 <= x <= 5.0 then Some(x) else None
  {
    var s := num + "/" + rest;
    SlashedIsStripped(num, rest);
    BeforeSlashOf(num, rest);
    Numeric.ParsedIsStripped(num);
    SlashedNotMarker(num, rest);
    ParseRatingOfStripped(s, num);
  }

  /** Rating text that is its own strip and no marker reads as the number its part before any '/' holds. */
  lemma ParseRatingOfStripped(s: string, t: string)
    requires Text.Strip(s) == s && s != "" && !IsNewMarker(s) && s != "-"
    requires BeforeSlash(s) == t && Text.Strip(t) == t
    ensures ParseRating(StrVal(s)) ==
      match Numeric.ParseDecimal(t)
      case None => None
      case Some(x) => if x < 0.0 || x > 5.0 then None else Some(x)
  {
    assert Text.Strip(s) == s;
    assert BeforeSlash(Text.Strip(s)) == t;
    assert Numeric.ParseFloat(t) == Numeric.ParseDecimal(t);
  }

  lemma SlashedNotMarker(num: string, rest: string)
    requires num != ""
    ensures var s := num + "/" + rest; !IsNewMarker(s) && s != "-" && s != ""
  {
    var s := num + "/" + rest;
    assert s[|num|] == '/';
  }

  lemma BeforeSlashOf(num: string, rest: string)
    requires Numeric.ParseDecimal(num).Some?
    requires '/' !in num
    ensures BeforeSlash(num + "/" + rest) == num
  {
    var s := num + "/" + rest;
    Text.FirstIndexAfter(num, '/', rest);
    Numeric.ParsedIsStripped(num);
    assert s[..|num|] == num;
    assert s[|num|] == '/';
  }

  lemma SlashedIsStripped(num: string, rest: string)
    requires Numeric.ParseDecimal(num).Some?
    requires rest == [] || !Text.IsSpace(rest[|rest| - 1])
    ensures Text.Strip(num + "/" + rest) == num + "/" + rest
  {
    var s := num + "/" + rest;
    assert !Text.IsSpace(s[0]) && !Text.IsSpace(s[|s| - 1]);
    Text.StripCharsKeeps(s, Text.IsSpace);
  }

  lemma DigitsAreStripped(s: string)
    requires forall i :: 0 <= i < |s| ==> Numeric.IsDigit(s[i]) || s[i] == ','
    ensures Text.Strip(s) == s
  {
    assert s == [] || (!Text.IsSpace(s[0]) && !Text.IsSpace(s[|s| - 1]));
    Text.StripCharsKeeps(s, Text.IsSpace);
  }

  lemma DigitsCommaDigits(a: string, b: string)
    requires Numeric.AllDigits(a) && Numeric.AllDigits(b)
    ensures RemoveCommas(a + "," + b) == a + b && RemoveCommas(a + b) == a + b
  {
    RemoveCommasAppend(a + ",", b);
    RemoveCommasAppend(a, ",");
    RemoveCommasKeeps(a);
    RemoveCommasKeeps(b);
    RemoveCommasAppend(a, b);
  }

  lemma DigitsCommaDigitsClean(a: string, b: string)
    requires Numeric.AllDigits(a) && Numeric.AllDigits(b)
    ensures RemoveCommas(Text.Strip(a + "," + b)) == a + b
    ensures RemoveCommas(Text.Strip(a + b)) == a + b
  {
    DigitsAreStripped(a + "," + b);
    DigitsAreStripped(a + b);
    DigitsCommaDigits(a, b);
  }

  lemma ParseDecimalExample()
    ensures Numeric.ParseDecimal("4.1") == Some(4.1)
  {
    var s := "4.1";
    assert Text.FirstIndexIn(s, {'.'}) == 1 by {
      assert s[0] == '4' && s[1] == '.';
    }
    assert s[..1] == "4" && s[2..] == "1";
    assert Numeric.DigitsValue("4") == 4 by {
      assert "4"[..0] == "";
    }
    assert Numeric.DigitsValue("1") == 1 by {
      assert "1"[..0] == "";
    }
  }

  /** The loader's own example: "4.1/5" reads as 4.1. */
  lemma ParseRatingExample(s: string)
    requires s == "4.1/5"
    ensures ParseRating(StrVal(s)) == Some(4.1)
  {
    var num, rest := s[..3], s[4..];
    assert num == "4.1" && rest == "5";
    assert s == num + "/" + rest;
    ParseDecimalExample();
    ParseRatingBeforeSlash(num, rest);
  }

  // ----- properties of the cost parser -----

  /** Text written from an int reads back as that int. */
  lemma ParseCostFormatInt(i: int)
    ensures ParseCost(StrVal(Numeric.FormatInt(i))) == Some(i)
  {
    FormatIntCleans(i);
    Numeric.ParseFloatFormatInt(i);
    assert Numeric.Trunc(i as real) == i;
  }

  /** The text of an int has no surrounding whitespace and no comma to remove. */
  lemma FormatIntCleans(i: int)
    ensures RemoveCommas(Text.Strip(Numeric.FormatInt(i))) == Numeric.FormatInt(i)
  {
    var s := Numeric.FormatInt(i);
    Numeric.ParseDecimalFormatInt(i);
    Numeric.ParsedIsStripped(s);
    Numeric.FormatIntChars(i);
    RemoveCommasKeeps(s);
  }

  /** A thousands separator between digit runs is ignored: "1,200" reads like "1200". */
  lemma ParseCostIgnoresComma(a: string, b: string)
    requires Numeric.AllDigits(a) && Numeric.AllDigits(b)
    ensures ParseCost(StrVal(a + "," + b)) == ParseCost(StrVal(a + b))
  {
    DigitsCommaDigitsClean(a, b);
    ParseCostSameText(a + "," + b, a + b);
  }

  /** Two texts that clean up to the same text read as the same cost. */
  lemma ParseCostSameText(x: string, y: string)
    requires RemoveCommas(Text.Strip(x)) == RemoveCommas(Text.Strip(y))
    ensures ParseCost(StrVal(x)) == ParseCost(StrVal(y))
  {
  }

  /** Decimal text is truncated toward zero, as `int(float(s))` does. */
  lemma ParseCostTruncates(num: string)
    requires Numeric.ParseDecimal(num).Some?
    requires forall i :: 0 <= i < |num| ==> num[i] != ','
    ensures ParseCost(StrVal(num)) == Some(Numeric.Trunc(Numeric.ParseDecimal(num).value))
  {
    Numeric.ParsedIsStripped(num);
    RemoveCommasKeeps(num);
  }

  // ----- properties of the vote coercion -----

  /** Text written from an int coerces back to that int ("10" gives 10). */
  lemma CoerceVotesFormatInt(i: int)
    ensures CoerceVotes(StrVal(Numeric.FormatInt(i))) == i
  {
    Numeric.ParseFloatFormatInt(i);
  }

  /** Text that is not a number coerces to 0. */
  lemma CoerceVotesUnparseable(s: string)
    requires Numeric.ParseFloat(s).None?
    ensures CoerceVotes(StrVal(s)) == 0
  {
  }

  // ----- properties of the loaded table -----

  /**
    Loading keeps every row, in order: a missing name or location survives as
    "nan", a missing type becomes "Unknown" and a present one is kept, ratings lie
    in [0, 5], and every vote is the coerced int.
   */
  lemma {:induction false} LoadRowsFields(raw: seq<RawRow>)
    ensures |LoadRows(raw)| == |raw|
    ensures forall i :: 0 <= i < |raw| ==>
      var row := LoadRows(raw)[i];
      && row.name == (if raw[i].name.Some? then raw[i].name.value else "nan")
      && row.location == (if raw[i].location.Some? then raw[i].location.value else "nan")
      && row.restaurantType == (if raw[i].restType.Some? then raw[i].restType.value else "Unknown")
      && (row.rating.Some? ==> 0.0 <= row.rating.value <= 5.0)
      && row.votes == CoerceVotes(raw[i].votes)
      && row.approxCostForTwo == ParseCost(raw[i].cost)
  {
  }
}
