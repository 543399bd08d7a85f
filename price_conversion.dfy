/** The conversion shared by convert_prices_to_gbp.py and convert_cleaned_prices_to_gbp.py
    (both scripts define the same `inr_to_gbp`, `PRICE_REGEX`, price-column selection
    and row loop): a price string such as `₹1,999` becomes `£18.99`, and a CSV table
    is rewritten in place, touching only the cells of price columns.

    The float arithmetic `round(float(literal) * 0.0095, 2)` is a parameter
    `toPence`: it receives the comma-free numeric literal and returns the rounded
    amount in whole pence. The guards, the regex match, comma removal and the
    `,.2f` formatting are modelled as written, except that `\d` is taken to be the
    ASCII digits and `str.lower` to fold only A-Z, which decides `NA` the same way. */
module PriceConversion {
  import opened Wrappers
  import opened Text

  const Rupee: char := '\U{20B9}'
  const Pound: char := '\U{A3}'

  /** A CSV row as `csv.reader` yields it. */
  type Row = seq<string>

  // ---------------------------------------------------------------------------
  // Digits

  predicate IsDigit(c: char)
  {
    '0' <= c <= '9'
  }

  predicate AllDigits(s: string)
  {
    forall k :: 0 <= k < |s| ==> IsDigit(s[k])
  }

  function DigitChar(d: nat): (c: char)
    requires d < 10
    ensures IsDigit(c) && c as int - '0' as int == d
  {
    ('0' as int + d) as char
  }

  /** Decimal representation without leading zeros (`"0"` for zero). */
  function NatToDigits(n: nat): (s: string)
    ensures |s| > 0 && AllDigits(s)
    ensures |s| > 1 ==> s[0] != '0'
    decreases n
  {
    if n < 10 then [DigitChar(n)] else NatToDigits(n / 10) + [DigitChar(n % 10)]
  }

  /** The number a digit string denotes. */
  function DigitsValue(s: string): nat
    requires AllDigits(s)
    decreases |s|
  {
    if s == [] then 0 else DigitsValue(s[..|s| - 1]) * 10 + (s[|s| - 1] as int - '0' as int)
  }

  lemma {:induction false} DigitsRoundTrip(n: nat)
    ensures DigitsValue(NatToDigits(n)) == n
    decreases n
  {
    if n >= 10 {
      var s := NatToDigits(n);
      assert s[..|s| - 1] == NatToDigits(n / 10);
      DigitsRoundTrip(n / 10);
    }
  }

  // ---------------------------------------------------------------------------
  // Thousands grouping and the `£{x:,.2f}` format

  /** Inserts a comma before every group of three digits counted from the right. */
  function GroupThousands(d: string): (g: string)
    decreases |d|
  {
    if |d| <= 3 then d else GroupThousands(d[..|d| - 3]) + "," + d[|d| - 3..]
  }

  /** Digits everywhere except every fourth position counted from the end, which is a comma. */
  predicate GroupedShape(g: string)
  {
    forall k :: 0 <= k < |g| ==> if (|g| - k) % 4 == 0 then g[k] == ',' else IsDigit(g[k])
  }

  /** Grouped digits have a comma exactly at every fourth place from the right. */
  lemma {:induction false} GroupThousandsShape(d: string)
    requires AllDigits(d)
    ensures GroupedShape(GroupThousands(d))
    decreases |d|
  {
    var g := GroupThousands(d);
    if |d| > 3 {
      var head := GroupThousands(d[..|d| - 3]);
      var tail := d[|d| - 3..];
      GroupThousandsShape(d[..|d| - 3]);
      assert g == head + "," + tail;
      forall k | 0 <= k < |g|
        ensures if (|g| - k) % 4 == 0 then g[k] == ',' else IsDigit(g[k])
      {
        if k < |head| {
          assert g[k] == head[k];
          var m := |head| - k;
          assert |g| - k == m + 4;
        } else if k > |head| {
          assert g[k] == tail[k - |head| - 1];
        }
      }
    }
  }

  /** Removing the commas of the grouping gives back the digits. */
  lemma {:induction false} UngroupThousands(d: string)
    requires AllDigits(d)
    ensures Without(GroupThousands(d), ',') == d
    decreases |d|
  {
    if |d| <= 3 {
      NoCommaInDigits(d);
      WithoutAbsent(d, ',');
    } else {
      var init := d[..|d| - 3];
      var tail := d[|d| - 3..];
      assert AllDigits(init) by {
        assert forall k :: 0 <= k < |init| ==> init[k] == d[k];
      }
      assert AllDigits(tail) by {
        assert forall k :: 0 <= k < |tail| ==> tail[k] == d[|d| - 3 + k];
      }
      UngroupThousands(init);
      WithoutCommaJoin(GroupThousands(init), tail);
      assert d == init + tail;
    }
  }

  lemma {:induction false} NoCommaInDigits(d: string)
    requires AllDigits(d)
    ensures ',' !in d
  {
    forall k | 0 <= k < |d|
      ensures d[k] != ','
    {
      assert IsDigit(d[k]);
    }
  }

  lemma {:induction false} CommaThenDigits(tail: string)
    requires AllDigits(tail)
    ensures Without([','] + tail, ',') == tail
  {
    assert Without([','], ',') == [] by {
      assert [','][1..] == [];
    }
    NoCommaInDigits(tail);
    WithoutAbsent(tail, ',');
    WithoutAppend([','], tail, ',');
  }

  lemma {:induction false} WithoutCommaJoin(head: string, tail: string)
    requires AllDigits(tail)
    ensures Without(head + "," + tail, ',') == Without(head, ',') + tail
  {
    CommaThenDigits(tail);
    WithoutAppend(head, [','] + tail, ',');
    assert head + "," + tail == head + ([','] + tail);
  }

  /** The two decimal places of an amount below one pound. */
  function Cents(c: nat): (s: string)
    requires c < 100
    ensures |s| == 2 && AllDigits(s)
  {
    [DigitChar(c / 10), DigitChar(c % 10)]
  }

  lemma {:induction false} CentsValue(c: nat)
    requires c < 100
    ensures DigitsValue(Cents(c)) == c
  {
    var s := Cents(c);
    assert s[..1][..0] == [];
    assert DigitsValue(s[..1]) == c / 10;
    assert DigitsValue(s) == (c / 10) * 10 + c % 10;
  }

  /** Python `f'£{gbp:,.2f}'` for an amount of `pence` hundredths of a pound. */
  function FormatPounds(pence: nat): (out: string)
    ensures |out| >= 5 && out[0] == Pound && out[|out| - 3] == '.'
    ensures IsDigit(out[|out| - 2]) && IsDigit(out[|out| - 1])
  {
    [Pound] + GroupThousands(NatToDigits(pence / 100)) + "." + Cents(pence % 100)
  }

  /** Reads back an amount written as `£<grouped digits>.<two digits>`. */
  function ParsePounds(out: string): Option<nat>
  {
    if |out| >= 5 && out[0] == Pound && out[|out| - 3] == '.' && AllDigits(out[|out| - 2..])
       && GroupedShape(out[1..|out| - 3]) && out[1] != ','
    then
      var whole := Without(out[1..|out| - 3], ',');
      if AllDigits(whole) then Some(DigitsValue(whole) * 100 + DigitsValue(out[|out| - 2..])) else None
    else None
  }

  /** Where the pounds and the pence sit in the formatted amount. */
  lemma FormatPoundsParts(pence: nat)
    ensures var out := FormatPounds(pence);
      && out[1..|out| - 3] == GroupThousands(NatToDigits(pence / 100))
      && out[|out| - 2..] == Cents(pence % 100)
  {
    var out := FormatPounds(pence);
    var g := GroupThousands(NatToDigits(pence / 100));
    var cents := Cents(pence % 100);
    assert out == [Pound] + g + "." + cents;
  }

  /** The formatted amount reads back as exactly the amount formatted. */
  lemma {:induction false} FormatPoundsRoundTrip(pence: nat)
    ensures ParsePounds(FormatPounds(pence)) == Some(pence)
  {
    var out := FormatPounds(pence);
    var digits := NatToDigits(pence / 100);
    var g := GroupThousands(digits);
    var cents := Cents(pence % 100);
    FormatPoundsParts(pence);
    GroupThousandsShape(digits);
    GroupThousandsLeadsWithDigit(digits);
    assert out[1] == g[0];
    UngroupThousands(digits);
    DigitsRoundTrip(pence / 100);
    CentsValue(pence % 100);
  }

  lemma {:induction false} GroupThousandsLeadsWithDigit(d: string)
    requires |d| > 0 && AllDigits(d)
    ensures |GroupThousands(d)| > 0 && IsDigit(GroupThousands(d)[0])
    decreases |d|
  {
    if |d| > 3 {
      GroupThousandsLeadsWithDigit(d[..|d| - 3]);
    }
  }

  // ---------------------------------------------------------------------------
  // `PRICE_REGEX = [\d,]+(?:\.\d+)?`, searched leftmost

  predicate IsRunChar(c: char)
  {
    IsDigit(c) || c == ','
  }

  /** End of the longest run of characters satisfying `p` that starts at `i`. */
  function RunEnd(t: string, i: nat, p: char -> bool): (j: nat)
    requires i <= |t|
    ensures i <= j <= |t|
    ensures forall k :: i <= k < j ==> p(t[k])
    ensures j < |t| ==> !p(t[j])
    decreases |t| - i
  {
    if i < |t| && p(t[i]) then RunEnd(t, i + 1, p) else i
  }

  /** Index of the first character at or after `i` satisfying `p`. */
  function FindFrom(t: string, i: nat, p: char -> bool): (r: Option<nat>)
    requires i <= |t|
    ensures r.None? <==> forall k :: i <= k < |t| ==> !p(t[k])
    ensures r.Some? ==> i <= r.value < |t| && p(t[r.value]) && forall k :: i <= k < r.value ==> !p(t[k])
    decreases |t| - i
  {
    if i == |t| then None
    else if p(t[i]) then Some(i)
    else FindFrom(t, i + 1, p)
  }

  /** A regex match: where it starts, the `[\d,]+` part, and the `\.\d+` part or `""`. */
  datatype PriceMatch = PriceMatch(start: nat, run: string, fraction: string)

  /** `m` is the leftmost match of `[\d,]+(?:\.\d+)?` in `t`, each part taken greedily. */
  predicate IsLeftmostMatch(t: string, m: PriceMatch)
  {
    var runEnd := m.start + |m.run|;
    var fracEnd := runEnd + |m.fraction|;
    && fracEnd <= |t|
    && t[m.start..runEnd] == m.run
    && t[runEnd..fracEnd] == m.fraction
    && (forall k :: 0 <= k < m.start ==> !IsRunChar(t[k]))
    && |m.run| > 0
    && (forall k :: 0 <= k < |m.run| ==> IsRunChar(m.run[k]))
    && (runEnd < |t| ==> !IsRunChar(t[runEnd]))
    && (m.fraction == [] || (|m.fraction| >= 2 && m.fraction[0] == '.' && AllDigits(m.fraction[1..])))
    && (m.fraction != [] ==> fracEnd == |t| || !IsDigit(t[fracEnd]))
    && (m.fraction == [] ==> !(runEnd + 1 < |t| && t[runEnd] == '.' && IsDigit(t[runEnd + 1])))
  }

  /** End of the optional `\.\d+` group starting at `j`: `j` itself when no point
      followed by a digit comes next. */
  function FractionEnd(t: string, j: nat): (e: nat)
    requires j <= |t|
    ensures j <= e <= |t|
    ensures e == j <==> !(j + 1 < |t| && t[j] == '.' && IsDigit(t[j + 1]))
    ensures e > j ==> e >= j + 2 && t[j] == '.' && forall k :: j + 1 <= k < e ==> IsDigit(t[k])
    ensures e > j && e < |t| ==> !IsDigit(t[e])
  {
    if j + 1 < |t| && t[j] == '.' && IsDigit(t[j + 1]) then RunEnd(t, j + 1, IsDigit) else j
  }

  /** `PRICE_REGEX.search(t)`. */
  function FirstPriceMatch(t: string): (m: Option<PriceMatch>)
    ensures m.None? <==> forall k :: 0 <= k < |t| ==> !IsRunChar(t[k])
  {
    match FindFrom(t, 0, IsRunChar)
    case None => None
    case Some(i) =>
      var j := RunEnd(t, i, IsRunChar);
      var e := FractionEnd(t, j);
      Some(PriceMatch(i, t[i..j], t[j..e]))
  }

  /** The slices between a first run character at `i`, the end of its run `j` and
      the end `e` of an optional fraction form a leftmost greedy match. */
  lemma {:induction false} LeftmostFromBounds(t: string, i: nat, j: nat, e: nat)
    requires i < j <= e <= |t|
    requires forall k :: 0 <= k < i ==> !IsRunChar(t[k])
    requires forall k :: i <= k < j ==> IsRunChar(t[k])
    requires j < |t| ==> !IsRunChar(t[j])
    requires e == j <==> !(j + 1 < |t| && t[j] == '.' && IsDigit(t[j + 1]))
    requires e > j ==> e >= j + 2 && t[j] == '.' && forall k :: j + 1 <= k < e ==> IsDigit(t[k])
    requires e > j && e < |t| ==> !IsDigit(t[e])
    ensures IsLeftmostMatch(t, PriceMatch(i, t[i..j], t[j..e]))
  {
    var run, fraction := t[i..j], t[j..e];
    forall k | 0 <= k < |run|
      ensures IsRunChar(run[k])
    {
      assert run[k] == t[i + k];
    }
    if e > j {
      forall k | 0 <= k < |fraction[1..]|
        ensures IsDigit(fraction[1..][k])
      {
        assert fraction[1..][k] == t[j + 1 + k];
      }
    }
  }

  /** The search finds the leftmost match, and takes each part greedily. */
  lemma {:induction false} FirstPriceMatchIsLeftmost(t: string)
    requires FirstPriceMatch(t).Some?
    ensures IsLeftmostMatch(t, FirstPriceMatch(t).value)
  {
    var i := FindFrom(t, 0, IsRunChar).value;
    var j := RunEnd(t, i, IsRunChar);
    assert j > i;
    LeftmostFromBounds(t, i, j, FractionEnd(t, j));
  }

  /** Two ends of the same maximal run from `i` are the same index. */
  lemma {:induction false} RunBoundUnique(t: string, i: nat, j1: nat, j2: nat, p: char -> bool)
    requires i <= j1 <= |t| && i <= j2 <= |t|
    requires forall k :: i <= k < j1 ==> p(t[k])
    requires forall k :: i <= k < j2 ==> p(t[k])
    requires j1 < |t| ==> !p(t[j1])
    requires j2 < |t| ==> !p(t[j2])
    ensures j1 == j2
  {
  }

  /** The first run character is where the search stops. */
  lemma {:induction false} FindFromAt(t: string, i: nat)
    requires i < |t| && IsRunChar(t[i])
    requires forall k :: 0 <= k < i ==> !IsRunChar(t[k])
    ensures FindFrom(t, 0, IsRunChar) == Some(i)
  {
    var r := FindFrom(t, 0, IsRunChar);
    assert r.Some?;
    assert IsRunChar(t[r.value]);
  }

  /** A slice made of `p`-characters and not followed by one is where the run ends. */
  lemma {:induction false} RunEndAt(t: string, i: nat, run: string, p: char -> bool)
    requires i + |run| <= |t| && t[i..i + |run|] == run
    requires forall k :: 0 <= k < |run| ==> p(run[k])
    requires i + |run| < |t| ==> !p(t[i + |run|])
    ensures RunEnd(t, i, p) == i + |run|
  {
    forall k | i <= k < i + |run|
      ensures p(t[k])
    {
      assert t[k] == run[k - i];
    }
    RunBoundUnique(t, i, RunEnd(t, i, p), i + |run|, p);
  }

  /** A `\.\d+` slice that no digit follows is where the fraction ends. */
  lemma {:induction false} FractionEndAt(t: string, j: nat, fraction: string)
    requires j + |fraction| <= |t| && t[j..j + |fraction|] == fraction
    requires |fraction| >= 2 && fraction[0] == '.' && AllDigits(fraction[1..])
    requires j + |fraction| == |t| || !IsDigit(t[j + |fraction|])
    ensures FractionEnd(t, j) == j + |fraction|
  {
    var digits := fraction[1..];
    assert t[j] == fraction[0] && t[j + 1] == digits[0];
    assert t[j + 1..j + 1 + |digits|] == digits;
    RunEndAt(t, j + 1, digits, IsDigit);
  }

  /** The search for a first run character stops where a leftmost match starts. */
  lemma {:induction false} LeftmostStart(t: string, m: PriceMatch)
    requires IsLeftmostMatch(t, m)
    ensures FindFrom(t, 0, IsRunChar) == Some(m.start)
  {
    assert t[m.start] == m.run[0];
    FindFromAt(t, m.start);
  }

  /** The digit/comma run of a leftmost match is maximal. */
  lemma {:induction false} LeftmostRunEnd(t: string, m: PriceMatch)
    requires IsLeftmostMatch(t, m)
    ensures RunEnd(t, m.start, IsRunChar) == m.start + |m.run|
  {
    RunEndAt(t, m.start, m.run, IsRunChar);
  }

  /** The fraction of a leftmost match is maximal, or absent when none can follow. */
  lemma {:induction false} LeftmostFractionEnd(t: string, m: PriceMatch)
    requires IsLeftmostMatch(t, m)
    ensures FractionEnd(t, m.start + |m.run|) == m.start + |m.run| + |m.fraction|
  {
    var re := m.start + |m.run|;
    if m.fraction != [] {
      FractionEndAt(t, re, m.fraction);
    } else {
      assert FractionEnd(t, re) == re;
    }
  }

  /** A leftmost greedy match is the one the search returns, so there is only one. */
  lemma {:induction false} LeftmostUnique(t: string, m: PriceMatch)
    requires IsLeftmostMatch(t, m)
    ensures FirstPriceMatch(t) == Some(m)
  {
    LeftmostStart(t, m);
    LeftmostRunEnd(t, m);
    LeftmostFractionEnd(t, m);
  }

  /** The search's result is exactly the leftmost greedy match. */
  lemma {:induction false} FirstPriceMatchIffLeftmost(t: string, m: PriceMatch)
    ensures FirstPriceMatch(t) == Some(m) <==> IsLeftmostMatch(t, m)
  {
    if IsLeftmostMatch(t, m) {
      LeftmostUnique(t, m);
    }
    if FirstPriceMatch(t) == Some(m) {
      FirstPriceMatchIsLeftmost(t);
    }
  }

  /** What `float` receives: the match with its commas removed. */
  function Literal(m: PriceMatch): string
  {
    Without(m.run, ',') + m.fraction
  }

  // ---------------------------------------------------------------------------
  // `inr_to_gbp`

  datatype ConversionError =
    | FloatParseError   // `float('')` on a match made only of commas
    | IndexError        // `row[idx]` past the end of a short row
    | NoHeader          // `reader[0]` of an empty file

  /** Python `price_str.lower() == 'na'`. */
  predicate IsNa(s: string)
  {
    AsciiLower(s) == "na"
  }

  /** The inputs returned unchanged: empty, NA in any case, or without a digit/comma run once `₹` is removed. */
  predicate PassesThrough(s: string)
  {
    s == [] || IsNa(s) || FirstPriceMatch(Without(s, Rupee)).None?
  }

  /** `inr_to_gbp`. */
  function InrToGbp(s: string, toPence: string -> nat): (r: Result<string, ConversionError>)
    ensures PassesThrough(s) ==> r == Success(s)
    ensures r.Failure? <==> !PassesThrough(s) && Literal(FirstPriceMatch(Without(s, Rupee)).value) == []
    ensures r.Failure? ==> r.error == FloatParseError
  {
    if s == [] || IsNa(s) then Success(s)
    else match FirstPriceMatch(Without(s, Rupee))
      case None => Success(s)
      case Some(m) =>
        if Literal(m) == [] then Failure(FloatParseError)
        else Success(FormatPounds(toPence(Literal(m))))
  }

  /** A converted price reads back as the pence the rate produced for the comma-free literal. */
  lemma {:induction false} ConvertedPriceShape(s: string, toPence: string -> nat)
    requires !PassesThrough(s) && InrToGbp(s, toPence).Success?
    ensures var out := InrToGbp(s, toPence).value;
      out[0] == Pound && out[|out| - 3] == '.' && IsDigit(out[|out| - 2]) && IsDigit(out[|out| - 1])
      && ParsePounds(out) == Some(toPence(Literal(FirstPriceMatch(Without(s, Rupee)).value)))
  {
    FormatPoundsRoundTrip(toPence(Literal(FirstPriceMatch(Without(s, Rupee)).value)));
  }

  /** Only the comma-free literal of the first match decides the result, so
      inputs whose first matches read the same convert identically. */
  lemma {:induction false} SameLiteralSameResult(s1: string, s2: string, toPence: string -> nat)
    requires !PassesThrough(s1) && !PassesThrough(s2)
    requires Literal(FirstPriceMatch(Without(s1, Rupee)).value) == Literal(FirstPriceMatch(Without(s2, Rupee)).value)
    ensures InrToGbp(s1, toPence) == InrToGbp(s2, toPence)
  {
  }

  /** Text made only of digits and commas is matched whole, without a fraction. */
  lemma {:induction false} WholeRunMatch(t: string)
    requires |t| > 0 && forall k :: 0 <= k < |t| ==> IsRunChar(t[k])
    ensures FirstPriceMatch(t) == Some(PriceMatch(0, t, ""))
  {
    assert FindFrom(t, 0, IsRunChar) == Some(0);
    assert RunEnd(t, 0, IsRunChar) == |t|;
    assert FractionEnd(t, |t|) == |t|;
    assert t[0..|t|] == t;
    assert t[|t|..|t|] == [];
  }

  /** Removing the rupee sign from `₹` followed by rupee-free text leaves that text. */
  lemma {:induction false} DropLeadingRupee(t: string)
    requires Rupee !in t
    ensures Without([Rupee] + t, Rupee) == t
  {
    assert ([Rupee] + t)[1..] == t;
    WithoutAbsent(t, Rupee);
  }

  /** Text starting with the rupee sign is not `NA`. */
  lemma {:induction false} RupeeIsNotNa(t: string)
    ensures !IsNa([Rupee] + t)
  {
    assert AsciiLower([Rupee] + t)[0] == Rupee;
  }

  /** Digits and commas contain no `₹`. */
  lemma {:induction false} RunHasNoRupee(t: string)
    requires forall k :: 0 <= k < |t| ==> IsRunChar(t[k])
    ensures Rupee !in t
  {
    forall k | 0 <= k < |t|
      ensures t[k] != Rupee
    {
      assert IsRunChar(t[k]);
    }
  }

  /** A non-empty, non-`NA` price whose rupee-free text has `m` as its leftmost
      greedy match converts the literal of `m`, or fails when that literal is empty. */
  lemma {:induction false} ConvertsFirstMatch(s: string, m: PriceMatch, toPence: string -> nat)
    requires s != [] && !IsNa(s) && IsLeftmostMatch(Without(s, Rupee), m)
    ensures InrToGbp(s, toPence)
      == if Literal(m) == [] then Failure(FloatParseError) else Success(FormatPounds(toPence(Literal(m))))
  {
    LeftmostUnique(Without(s, Rupee), m);
  }

  /** `₹` followed by digits and commas converts the whole run with its commas removed. */
  lemma {:induction false} RupeeRunConverts(t: string, toPence: string -> nat)
    requires |t| > 0 && forall k :: 0 <= k < |t| ==> IsRunChar(t[k])
    ensures InrToGbp([Rupee] + t, toPence)
      == if Without(t, ',') == [] then Failure(FloatParseError) else Success(FormatPounds(toPence(Without(t, ','))))
  {
    RunHasNoRupee(t);
    DropLeadingRupee(t);
    RupeeIsNotNa(t);
    WholeRunMatch(t);
    FirstPriceMatchIsLeftmost(t);
    var m := PriceMatch(0, t, "");
    assert Literal(m) == Without(t, ',') + "" == Without(t, ',');
    ConvertsFirstMatch([Rupee] + t, m, toPence);
  }

  /** Thousands separators in a rupee amount do not change its conversion:
      `₹1,999` and `₹1999` give the same string. */
  lemma {:induction false} ThousandsCommaIgnored(grouped: string, plain: string, toPence: string -> nat)
    requires |grouped| > 0 && forall k :: 0 <= k < |grouped| ==> IsRunChar(grouped[k])
    requires |plain| > 0 && AllDigits(plain)
    requires Without(grouped, ',') == plain
    ensures InrToGbp([Rupee] + grouped, toPence) == InrToGbp([Rupee] + plain, toPence)
    ensures InrToGbp([Rupee] + plain, toPence) == Success(FormatPounds(toPence(plain)))
  {
    RupeeRunConverts(grouped, toPence);
    RupeeRunConverts(plain, toPence);
    NoCommaInDigits(plain);
    WithoutAbsent(plain, ',');
  }

  /** A comma-only first match, such as in `₹,`, makes `float('')` raise. */
  lemma {:induction false} CommaOnlyMatchRaises(toPence: string -> nat)
    ensures InrToGbp([Rupee] + ",", toPence) == Failure(FloatParseError)
  {
    RupeeRunConverts(",", toPence);
    assert Without(",", ',') == [];
  }

  // ---------------------------------------------------------------------------
  // Tables

  /** A header naming a price: contains `Price` or `MRP` (case-sensitive). */
  predicate IsPriceHeader(col: string)
  {
    Contains(col, "Price") || Contains(col, "MRP")
  }

  /** `price_cols`: the indices of price headers, in increasing order. */
  function PriceColumns(header: Row): (cols: seq<nat>)
    ensures forall i: nat :: i in cols <==> i < |header| && IsPriceHeader(header[i])
    ensures forall a, b :: 0 <= a < b < |cols| ==> cols[a] < cols[b]
    ensures forall a :: 0 <= a < |cols| ==> cols[a] < |header|
    decreases |header|
  {
    if header == [] then []
    else
      var init := header[..|header| - 1];
      assert forall i :: 0 <= i < |init| ==> init[i] == header[i];
      PriceColumns(init) + if IsPriceHeader(header[|header| - 1]) then [|header| - 1] else []
  }

  /** Every index occurs at most once. */
  predicate Distinct(cols: seq<nat>)
  {
    forall a, b :: 0 <= a < b < |cols| ==> cols[a] != cols[b]
  }

  /** A cell conversion. The scripts use `Converter(toPence)`, which is `inr_to_gbp`
      at the rate `toPence` stands for; the table and file logic below holds for any. */
  type Conversion = string -> Result<string, ConversionError>

  function Converter(toPence: string -> nat): Conversion
  {
    s => InrToGbp(s, toPence)
  }

  /** The inner loop on one row: `row[idx] = inr_to_gbp(row[idx])` for each column,
      in order, with `convert` standing for `inr_to_gbp`. */
  function ConvertCells(row: Row, cols: seq<nat>, convert: Conversion): Result<Row, ConversionError>
    decreases |cols|
  {
    if cols == [] then Success(row)
    else if cols[0] >= |row| then Failure(IndexError)
    else match convert(row[cols[0]])
      case Failure(e) => Failure(e)
      case Success(v) => ConvertCells(row[cols[0] := v], cols[1..], convert)
  }

  /** The cell loop succeeds exactly when every listed cell exists and converts;
      it then rewrites exactly those cells and keeps the others. */
  lemma {:induction false} ConvertCellsMeaning(row: Row, cols: seq<nat>, convert: Conversion)
    requires Distinct(cols)
    ensures ConvertCells(row, cols, convert).Success?
      <==> forall k :: 0 <= k < |cols| ==> cols[k] < |row| && convert(row[cols[k]]).Success?
    ensures ConvertCells(row, cols, convert).Success? ==>
      var out := ConvertCells(row, cols, convert).value;
      |out| == |row| && forall i :: 0 <= i < |row| ==> out[i] == if i in cols then convert(row[i]).value else row[i]
    decreases |cols|
  {
    if cols != [] && cols[0] < |row| && convert(row[cols[0]]).Success? {
      var c := cols[0];
      var next := row[c := convert(row[c]).value];
      assert Distinct(cols[1..]);
      ConvertCellsMeaning(next, cols[1..], convert);
      assert forall k :: 0 <= k < |cols[1..]| ==> cols[1..][k] != c;
      assert forall k :: 1 <= k < |cols| ==> cols[k] == cols[1..][k - 1];
      assert forall i :: i in cols <==> i == c || i in cols[1..];
    }
  }

  /** The outer loop: rows in order, stopping at the first error. */
  function ConvertRows(rows: seq<Row>, cols: seq<nat>, convert: Conversion): Result<seq<Row>, ConversionError>
    decreases |rows|
  {
    if rows == [] then Success([])
    else match ConvertRows(rows[..|rows| - 1], cols, convert)
      case Failure(e) => Failure(e)
      case Success(done) =>
        match ConvertCells(rows[|rows| - 1], cols, convert)
        case Failure(e) => Failure(e)
        case Success(last) => Success(done + [last])
  }

  /** The row loop succeeds exactly when every row does, converting each row independently. */
  lemma {:induction false} ConvertRowsMeaning(rows: seq<Row>, cols: seq<nat>, convert: Conversion)
    ensures ConvertRows(rows, cols, convert).Success? <==> forall r :: 0 <= r < |rows| ==> ConvertCells(rows[r], cols, convert).Success?
    ensures ConvertRows(rows, cols, convert).Success? ==>
      var out := ConvertRows(rows, cols, convert).value;
      |out| == |rows| && forall r :: 0 <= r < |rows| ==> out[r] == ConvertCells(rows[r], cols, convert).value
    decreases |rows|
  {
    if rows != [] {
      var init := rows[..|rows| - 1];
      ConvertRowsMeaning(init, cols, convert);
      assert forall r :: 0 <= r < |init| ==> init[r] == rows[r];
    }
  }

  /** An error in the first `n` rows is the error of the whole loop. */
  lemma {:induction false} ConvertRowsPrefixFailure(rows: seq<Row>, n: nat, cols: seq<nat>, convert: Conversion)
    requires n <= |rows|
    requires ConvertRows(rows[..n], cols, convert).Failure?
    ensures ConvertRows(rows, cols, convert) == ConvertRows(rows[..n], cols, convert)
    decreases |rows| - n
  {
    if n < |rows| {
      assert rows[..|rows| - 1][..n] == rows[..n];
      ConvertRowsPrefixFailure(rows[..|rows| - 1], n, cols, convert);
    } else {
      assert rows[..n] == rows;
    }
  }

  /** The nested loop of both scripts, run on the rows in place. On an error the
      script stops before writing, so the rows are then of no further interest. */
  method ConvertRowsInPlace(rows: array<Row>, cols: seq<nat>, convert: Conversion) returns (err: Option<ConversionError>)
    modifies rows
    ensures err.None? <==> ConvertRows(old(rows[..]), cols, convert).Success?
    ensures err.None? ==> rows[..] == ConvertRows(old(rows[..]), cols, convert).value
    ensures err.Some? ==> ConvertRows(old(rows[..]), cols, convert) == Failure(err.value)
  {
    ghost var original := rows[..];
    for r := 0 to rows.Length
      invariant ConvertRows(original[..r], cols, convert) == Success(rows[..r])
      invariant rows[r..] == original[r..]
    {
      ghost var done := rows[..r];
      assert original[..r + 1][..r] == original[..r];
      assert rows[r] == original[r];
      for j := 0 to |cols|
        invariant rows[..r] == done && rows[r + 1..] == original[r + 1..]
        invariant ConvertCells(rows[r], cols[j..], convert) == ConvertCells(original[r], cols, convert)
      {
        var idx := cols[j];
        assert cols[j..][0] == idx && cols[j..][1..] == cols[j + 1..];
        if idx >= |rows[r]| {
          err := Some(IndexError);
          ConvertRowsPrefixFailure(original, r + 1, cols, convert);
          return;
        }
        var converted := convert(rows[r][idx]);
        if converted.Failure? {
          err := Some(converted.error);
          ConvertRowsPrefixFailure(original, r + 1, cols, convert);
          return;
        }
        rows[r] := rows[r][idx := converted.value];
      }
      assert cols[|cols|..] == [];
      assert rows[..r + 1] == done + [rows[r]];
    }
    assert original[..rows.Length] == original;
    assert rows[..rows.Length] == rows[..];
    err := None;
  }

  /** One script run on one file's table: header, price columns from it, the
      loop over the data rows, and the table written back. */
  function ConvertTable(table: seq<Row>, convert: Conversion): Result<seq<Row>, ConversionError>
  {
    if table == [] then Failure(NoHeader)
    else match ConvertRows(table[1..], PriceColumns(table[0]), convert)
      case Failure(e) => Failure(e)
      case Success(rows) => Success([table[0]] + rows)
  }

  /** Cell `i` of a data row is in a price column of `header`. */
  predicate IsPriceColumn(header: Row, i: nat)
  {
    i < |header| && IsPriceHeader(header[i])
  }

  /** The written table keeps the header, the number and order of rows and every
      cell outside the price columns; each price cell is its `inr_to_gbp` conversion.
      The conversion fails exactly when the file is empty, a row is too short for a
      price column, or a price cell does not convert (for `inr_to_gbp`, when its
      first match is only commas). */
  lemma {:induction false} ConvertTableMeaning(table: seq<Row>, convert: Conversion)
    ensures ConvertTable(table, convert).Success? <==>
      |table| > 0 && forall r, i: nat :: 1 <= r < |table| && IsPriceColumn(table[0], i) ==>
        i < |table[r]| && convert(table[r][i]).Success?
    ensures ConvertTable(table, convert).Success? ==>
      var out := ConvertTable(table, convert).value;
      |out| == |table| && out[0] == table[0]
      && forall r :: 1 <= r < |table| ==>
           |out[r]| == |table[r]|
           && forall i :: 0 <= i < |table[r]| ==>
                out[r][i] == if IsPriceColumn(table[0], i) then convert(table[r][i]).value else table[r][i]
  {
    TableConvertsIff(table, convert);
    if ConvertTable(table, convert).Success? {
      TableContents(table, convert);
    }
  }

  /** When the table conversion succeeds: a header, and every price cell present
      and convertible. */
  lemma {:induction false} TableConvertsIff(table: seq<Row>, convert: Conversion)
    ensures ConvertTable(table, convert).Success? <==>
      |table| > 0 && forall r, i: nat :: 1 <= r < |table| && IsPriceColumn(table[0], i) ==>
        i < |table[r]| && convert(table[r][i]).Success?
  {
    if table != [] {
      var header := table[0];
      var rows := table[1..];
      var cols := PriceColumns(header);
      ConvertRowsMeaning(rows, cols, convert);
      if ConvertRows(rows, cols, convert).Success? {
        forall r, i: nat | 1 <= r < |table| && IsPriceColumn(header, i)
          ensures i < |table[r]| && convert(table[r][i]).Success?
        {
          assert table[r] == rows[r - 1];
          RowMeaning(header, rows[r - 1], convert);
        }
      } else {
        var r :| 0 <= r < |rows| && !ConvertCells(rows[r], cols, convert).Success?;
        assert table[r + 1] == rows[r];
        RowMeaning(header, rows[r], convert);
      }
    }
  }

  /** What a successful table conversion holds, cell by cell. */
  lemma {:induction false} TableContents(table: seq<Row>, convert: Conversion)
    requires ConvertTable(table, convert).Success?
    ensures forall r, i: nat :: 1 <= r < |table| && IsPriceColumn(table[0], i) ==>
      i < |table[r]| && convert(table[r][i]).Success?
    ensures var out := ConvertTable(table, convert).value;
      |out| == |table| && out[0] == table[0]
      && forall r :: 1 <= r < |table| ==>
           |out[r]| == |table[r]|
           && forall i :: 0 <= i < |table[r]| ==>
                out[r][i] == if IsPriceColumn(table[0], i) then convert(table[r][i]).value else table[r][i]
  {
    var header := table[0];
    var rows := table[1..];
    var cols := PriceColumns(header);
    ConvertRowsMeaning(rows, cols, convert);
    TableConvertsIff(table, convert);
    var out := ConvertTable(table, convert).value;
    assert out == [header] + ConvertRows(rows, cols, convert).value;
    forall r | 1 <= r < |table|
      ensures |out[r]| == |table[r]|
      ensures forall i :: 0 <= i < |table[r]| ==>
        out[r][i] == if IsPriceColumn(header, i) then convert(table[r][i]).value else table[r][i]
    {
      assert table[r] == rows[r - 1];
      assert out[r] == ConvertCells(rows[r - 1], cols, convert).value;
      RowMeaning(header, rows[r - 1], convert);
    }
  }

  /** One data row under `header`: it converts exactly when every price column
      exists in it and converts; then exactly its price cells are replaced. */
  lemma {:induction false} RowMeaning(header: Row, row: Row, convert: Conversion)
    ensures ConvertCells(row, PriceColumns(header), convert).Success?
      <==> forall i: nat :: IsPriceColumn(header, i) ==> i < |row| && convert(row[i]).Success?
    ensures ConvertCells(row, PriceColumns(header), convert).Success? ==>
      var out := ConvertCells(row, PriceColumns(header), convert).value;
      |out| == |row| && forall i :: 0 <= i < |row| ==> out[i] == if IsPriceColumn(header, i) then convert(row[i]).value else row[i]
  {
    var cols := PriceColumns(header);
    ConvertCellsMeaning(row, cols, convert);
    assert forall i: nat :: i in cols <==> IsPriceColumn(header, i);
    if forall i: nat :: IsPriceColumn(header, i) ==> i < |row| && convert(row[i]).Success? {
      forall k | 0 <= k < |cols|
        ensures cols[k] < |row| && convert(row[cols[k]]).Success?
      {
        assert cols[k] in cols;
      }
    }
  }

  /** Both scripts' read-convert-write of one file: the data rows are copied into
      a list, rewritten in place, and written back after the header. */
  method ConvertFileContents(table: seq<Row>, convert: Conversion) returns (r: Result<seq<Row>, ConversionError>)
    ensures r == ConvertTable(table, convert)
  {
    if |table| == 0 {
      return Failure(NoHeader);
    }
    var header := table[0];
    var rows := new Row[|table| - 1](i requires 0 <= i < |table| - 1 => table[i + 1]);
    assert rows[..] == table[1..];
    var cols := PriceColumns(header);
    var err := ConvertRowsInPlace(rows, cols, convert);
    if err.Some? {
      return Failure(err.value);
    }
    r := Success([header] + rows[..]);
  }

  // ---------------------------------------------------------------------------
  // Files

  /** Why a script run stops: `open` of a missing file, or an error while converting. */
  datatype ScriptError = FileNotFound(path: string) | ConversionFailed(path: string, error: ConversionError)

  /** The CSV files on disk, by path; a path that is absent does not exist. */
  type Disk = map<string, seq<Row>>

  /** The disk after a run over `paths`, and the error that stopped the run, if any. */
  datatype RunOutcome = RunOutcome(disk: Disk, error: Option<ScriptError>)

  /** Files converted one after another, each written back before the next is
      read; the first missing file or failing conversion stops the run. */
  function ConvertFiles(disk: Disk, paths: seq<string>, convert: Conversion): (r: RunOutcome)
    ensures r.disk.Keys == disk.Keys
    decreases |paths|
  {
    if paths == [] then RunOutcome(disk, None)
    else if paths[0] !in disk then RunOutcome(disk, Some(FileNotFound(paths[0])))
    else match ConvertTable(disk[paths[0]], convert)
      case Failure(e) => RunOutcome(disk, Some(ConversionFailed(paths[0], e)))
      case Success(t) => ConvertFiles(disk[paths[0] := t], paths[1..], convert)
  }

  /** A run leaves every file it was not asked to convert as it was. */
  lemma {:induction false} ConvertFilesFrame(disk: Disk, paths: seq<string>, convert: Conversion)
    ensures forall p :: p in disk && p !in paths ==> ConvertFiles(disk, paths, convert).disk[p] == disk[p]
    decreases |paths|
  {
    if paths != [] && paths[0] in disk && ConvertTable(disk[paths[0]], convert).Success? {
      ConvertFilesFrame(disk[paths[0] := ConvertTable(disk[paths[0]], convert).value], paths[1..], convert);
    }
  }

  /** Over distinct paths, a run finishes without error exactly when every file
      exists and converts, and each file then holds the conversion of its own
      original table. */
  lemma {:induction false} ConvertFilesComplete(disk: Disk, paths: seq<string>, convert: Conversion)
    requires forall a, b :: 0 <= a < b < |paths| ==> paths[a] != paths[b]
    ensures ConvertFiles(disk, paths, convert).error.None?
      <==> forall p :: p in paths ==> p in disk && ConvertTable(disk[p], convert).Success?
    ensures ConvertFiles(disk, paths, convert).error.None? ==>
      forall p :: p in paths ==> ConvertFiles(disk, paths, convert).disk[p] == ConvertTable(disk[p], convert).value
    decreases |paths|
  {
    if paths != [] && paths[0] in disk && ConvertTable(disk[paths[0]], convert).Success? {
      var first := paths[0];
      var next := disk[first := ConvertTable(disk[first], convert).value];
      var rest := paths[1..];
      assert forall p :: p in rest ==> p != first by {
        forall k | 0 <= k < |rest|
          ensures rest[k] != first
        {
          assert rest[k] == paths[k + 1];
        }
      }
      assert forall p :: p in paths <==> p == first || p in rest;
      ConvertFilesComplete(next, rest, convert);
      ConvertFilesFrame(next, rest, convert);
    }
  }

  /** The data directory the scripts read and overwrite. */
  class DataDirectory {
    var files: Disk

    constructor (files: Disk)
      ensures this.files == files
    {
      this.files := files;
    }

    /** One script's loop over `paths`: each file is read, converted and written
        back in turn. */
    method ConvertAll(paths: seq<string>, convert: Conversion) returns (err: Option<ScriptError>)
      modifies this
      ensures ConvertFiles(old(files), paths, convert) == RunOutcome(files, err)
    {
      var i := 0;
      while i < |paths|
        invariant 0 <= i <= |paths|
        invariant ConvertFiles(old(files), paths, convert) == ConvertFiles(files, paths[i..], convert)
      {
        var path := paths[i];
        if path !in files {
          return Some(FileNotFound(path));
        }
        var converted := ConvertFileContents(files[path], convert);
        if converted.Failure? {
          return Some(ConversionFailed(path, converted.error));
        }
        files := files[path := converted.value];
        assert paths[i..][1..] == paths[i + 1..];
        i := i + 1;
      }
      return None;
    }
  }
}
