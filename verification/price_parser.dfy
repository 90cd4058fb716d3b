/** The price parser of price-tracker.py (parse_price): a fixed chain of character rewrites
    that turns a locale-formatted price ("$1.234,56") into decimal notation ("1234.56"),
    followed by the conversion of that text to a number. */
module PriceParser {
  import opened Wrappers

  /** Number of occurrences of `c` in `s`. */
  function Count(s: seq<char>, c: char): nat
  {
    if s == [] then 0 else (if s[0] == c then 1 else 0) + Count(s[1..], c)
  }

  lemma {:induction false} CountAppend(a: seq<char>, b: seq<char>, c: char)
    ensures Count(a + b, c) == Count(a, c) + Count(b, c)
  {
    if a != [] {
      assert (a + b)[0] == a[0];
      assert (a + b)[1..] == a[1..] + b;
      CountAppend(a[1..], b, c);
    } else {
      assert a + b == b;
    }
  }

  lemma {:induction false} CountAbsent(s: seq<char>, c: char)
    requires c !in s
    ensures Count(s, c) == 0
  {
    if s != [] {
      CountAbsent(s[1..], c);
    }
  }

  lemma {:induction false} CountPositive(s: seq<char>, c: char)
    requires Count(s, c) > 0
    ensures c in s
  {
    if s[0] != c {
      CountPositive(s[1..], c);
    }
  }

  /** `s.replace(c, "")`: every occurrence of `c` dropped, the rest kept in order. */
  function Remove(s: seq<char>, c: char): (r: seq<char>)
    ensures c !in r
    ensures |r| == |s| - Count(s, c)
    ensures forall x :: x in r ==> x in s
  {
    if s == [] then [] else (if s[0] == c then [] else [s[0]]) + Remove(s[1..], c)
  }

  /** Removal works piece by piece: the kept characters of a concatenation are those of its
      first part followed by those of its second, so their order is the input's. */
  lemma {:induction false} RemoveAppend(a: seq<char>, b: seq<char>, c: char)
    ensures Remove(a + b, c) == Remove(a, c) + Remove(b, c)
  {
    if a != [] {
      assert (a + b)[0] == a[0];
      assert (a + b)[1..] == a[1..] + b;
      RemoveAppend(a[1..], b, c);
    } else {
      assert a + b == b;
    }
  }

  /** A single character is dropped when it is `c` and kept otherwise. */
  lemma RemoveSingle(x: char, c: char)
    ensures Remove([x], c) == if x == c then [] else [x]
  {
    assert [x][1..] == [];
  }

  /** `s.replace(c, d)` for single characters: same length, `c` turned into `d` position by position. */
  function Replace(s: seq<char>, c: char, d: char): (r: seq<char>)
    ensures |r| == |s|
    ensures forall i :: 0 <= i < |s| ==> r[i] == (if s[i] == c then d else s[i])
  {
    if s == [] then [] else [if s[0] == c then d else s[0]] + Replace(s[1..], c, d)
  }

  /** The cleaning step of parse_price: drop '$', drop '.', then turn ',' into '.'. */
  function Clean(s: seq<char>): (r: seq<char>)
    ensures '$' !in r
    ensures Count(r, '.') == Count(s, ',')
    ensures |r| == |s| - Count(s, '$') - Count(s, '.')
    ensures forall c :: c in r && c != '.' ==> c in s
  {
    var noSymbol := Remove(s, '$');
    var noGroups := Remove(noSymbol, '.');
    CountRemoveOther(s, '$', '.');
    CountRemoveOther(s, '$', ',');
    CountRemoveOther(noSymbol, '.', ',');
    CountReplaceTarget(noGroups, ',', '.');
    CountAbsent(noGroups, '.');
    var r := Replace(noGroups, ',', '.');
    assert '$' !in r by {
      assert '$' !in noGroups;
      forall i | 0 <= i < |r| ensures r[i] != '$' {
        assert r[i] == '.' || r[i] == noGroups[i];
      }
    }
    r
  }

  lemma {:induction false} CountRemoveOther(s: seq<char>, c: char, d: char)
    requires c != d
    ensures Count(Remove(s, c), d) == Count(s, d)
  {
    if s != [] {
      CountRemoveOther(s[1..], c, d);
      CountAppend(if s[0] == c then [] else [s[0]], Remove(s[1..], c), d);
    }
  }

  lemma {:induction false} CountReplaceTarget(s: seq<char>, c: char, d: char)
    requires c != d
    ensures Count(Replace(s, c, d), d) == Count(s, d) + Count(s, c)
  {
    if s != [] {
      CountReplaceTarget(s[1..], c, d);
      CountAppend([if s[0] == c then d else s[0]], Replace(s[1..], c, d), d);
    }
  }

  /** What cleaning does to one character. */
  function CleanChar(c: char): (r: seq<char>)
  {
    if c == '$' || c == '.' then [] else if c == ',' then ['.'] else [c]
  }

  /** Reference definition: one left-to-right pass applying CleanChar to every character. */
  function CleanPerChar(s: seq<char>): (r: seq<char>)
  {
    if s == [] then [] else CleanChar(s[0]) + CleanPerChar(s[1..])
  }

  /** The three chained rewrites act character by character: every character other than
      '$' and '.' keeps its relative order, with ',' mapped to '.'. */
  lemma {:induction false} CleanIsPerChar(s: seq<char>)
    ensures Clean(s) == CleanPerChar(s)
  {
    if s != [] {
      CleanIsPerChar(s[1..]);
      var t := Remove(s[1..], '$');
      var u := Remove(t, '.');
      if s[0] == '$' {
        assert Remove(s, '$') == t;
      } else if s[0] == '.' {
        assert Remove(s, '$') == ['.'] + t;
        assert Remove(['.'] + t, '.') == u by { assert (['.'] + t)[1..] == t; }
      } else {
        assert Remove(s, '$') == [s[0]] + t;
        assert Remove([s[0]] + t, '.') == [s[0]] + u by { assert ([s[0]] + t)[1..] == t; }
        assert Replace([s[0]] + u, ',', '.') == CleanChar(s[0]) + Replace(u, ',', '.')
          by { assert ([s[0]] + u)[1..] == u; }
      }
    }
  }

  lemma {:induction false} CleanPerCharAppend(a: seq<char>, b: seq<char>)
    ensures CleanPerChar(a + b) == CleanPerChar(a) + CleanPerChar(b)
  {
    if a != [] {
      assert (a + b)[0] == a[0];
      assert (a + b)[1..] == a[1..] + b;
      CleanPerCharAppend(a[1..], b);
    } else {
      assert a + b == b;
    }
  }

  /** Cleaning distributes over concatenation. */
  lemma CleanAppend(a: seq<char>, b: seq<char>)
    ensures Clean(a + b) == Clean(a) + Clean(b)
  {
    CleanIsPerChar(a + b);
    CleanIsPerChar(a);
    CleanIsPerChar(b);
    CleanPerCharAppend(a, b);
  }

  predicate IsDigit(c: char)
  {
    '0' <= c <= '9'
  }

  predicate AllDigits(s: seq<char>)
  {
    forall i :: 0 <= i < |s| ==> IsDigit(s[i])
  }

  /** Text made only of digits comes out of cleaning unchanged. */
  lemma {:induction false} CleanDigits(s: seq<char>)
    requires AllDigits(s)
    ensures Clean(s) == s
  {
    CleanIsPerChar(s);
    CleanPerCharDigits(s);
  }

  lemma {:induction false} CleanPerCharDigits(s: seq<char>)
    requires AllDigits(s)
    ensures CleanPerChar(s) == s
  {
    if s != [] {
      CleanPerCharDigits(s[1..]);
    }
  }

  function Pow10(k: nat): (p: nat)
    ensures p > 0
  {
    if k == 0 then 1 else 10 * Pow10(k - 1)
  }

  /** Value of a string of decimal digits, most significant first. */
  function DigitsValue(s: seq<char>): nat
    requires AllDigits(s)
  {
    if s == [] then 0 else DigitsValue(s[..|s| - 1]) * 10 + (s[|s| - 1] as int - '0' as int)
  }

  lemma {:induction false} DigitsValueAppend(a: seq<char>, b: seq<char>)
    requires AllDigits(a) && AllDigits(b)
    ensures AllDigits(a + b)
    ensures DigitsValue(a + b) == DigitsValue(a) * Pow10(|b|) + DigitsValue(b)
  {
    if b != [] {
      var b' := b[..|b| - 1];
      assert (a + b)[..|a + b| - 1] == a + b';
      DigitsValueAppend(a, b');
      var x, y, d := DigitsValue(a), DigitsValue(b'), b[|b| - 1] as int - '0' as int;
      assert DigitsValue(a + b) == (x * Pow10(|b'|) + y) * 10 + d;
      Regroup(x, Pow10(|b'|), y, d);
    } else {
      assert a + b == a;
    }
  }

  lemma Regroup(x: int, p: int, y: int, d: int)
    ensures (x * p + y) * 10 + d == x * (p * 10) + (y * 10 + d)
  {
  }

  /** Position of the first `c` in `s`, or |s| when there is none. */
  function IndexOf(s: seq<char>, c: char): (k: nat)
    ensures k <= |s|
    ensures k < |s| ==> s[k] == c
    ensures forall i :: 0 <= i < k ==> s[i] != c
  {
    if s == [] then 0
    else if s[0] == c then 0
    else IndexOf(s[1..], c) + 1
  }

  /** The numeric conversion `float(text)` for plain decimal notation: an optional sign,
      digits, and at most one '.' followed by digits, with at least one digit in all.
      Any other text is a conversion failure (None). */
  function ReadDecimal(t: seq<char>): (r: Option<real>)
    ensures r.Some? ==> Count(t, '.') <= 1
    ensures r.Some? ==> exists i :: 0 <= i < |t| && IsDigit(t[i])
  {
    var signed := |t| > 0 && (t[0] == '-' || t[0] == '+');
    var body := if signed then t[1..] else t;
    var k := IndexOf(body, '.');
    var whole := body[..k];
    var frac := if k < |body| then body[k + 1..] else [];
    if AllDigits(whole) && AllDigits(frac) && |whole| + |frac| > 0 then
      var v := DecimalValue(whole, frac);
      ReadDecimalShape(t, signed, body, k, whole, frac);
      Some(if signed && t[0] == '-' then -v else v)
    else
      None
  }

  /** The value of the digits `whole` followed by a point and the digits `frac`. */
  function DecimalValue(whole: seq<char>, frac: seq<char>): (v: real)
    requires AllDigits(whole) && AllDigits(frac)
    ensures v >= 0.0
  {
    DigitsValue(whole) as real + DigitsValue(frac) as real / Pow10(|frac|) as real
  }

  lemma ReadDecimalShape(t: seq<char>, signed: bool, body: seq<char>, k: nat, whole: seq<char>, frac: seq<char>)
    requires signed == (|t| > 0 && (t[0] == '-' || t[0] == '+'))
    requires body == if signed then t[1..] else t
    requires k == IndexOf(body, '.')
    requires whole == body[..k]
    requires frac == if k < |body| then body[k + 1..] else []
    requires AllDigits(whole) && AllDigits(frac) && |whole| + |frac| > 0
    ensures Count(t, '.') <= 1
    ensures exists i :: 0 <= i < |t| && IsDigit(t[i])
  {
    var j := BodyShape(body, k, whole, frac);
    if signed {
      assert t == [t[0]] + body;
      CountAppend([t[0]], body, '.');
      assert IsDigit(t[j + 1]);
    } else {
      assert IsDigit(t[j]);
    }
  }

  /** The unsigned part of an accepted decimal has at most one point and some digit (at index j). */
  lemma BodyShape(body: seq<char>, k: nat, whole: seq<char>, frac: seq<char>) returns (j: nat)
    requires k == IndexOf(body, '.')
    requires whole == body[..k]
    requires frac == if k < |body| then body[k + 1..] else []
    requires AllDigits(whole) && AllDigits(frac) && |whole| + |frac| > 0
    ensures Count(body, '.') <= 1
    ensures j < |body| && IsDigit(body[j])
  {
    AllDigitsNoPoint(whole);
    AllDigitsNoPoint(frac);
    if k < |body| {
      assert body == whole + [body[k]] + frac;
      CountAppend(whole + [body[k]], frac, '.');
      CountAppend(whole, [body[k]], '.');
      if |whole| > 0 {
        j := 0;
        assert body[0] == whole[0];
      } else {
        j := k + 1;
        assert body[j] == frac[0];
      }
    } else {
      assert body == whole;
      j := 0;
      assert body[0] == whole[0];
    }
  }

  lemma AllDigitsNoPoint(s: seq<char>)
    requires AllDigits(s)
    ensures Count(s, '.') == 0
  {
    if Count(s, '.') > 0 {
      CountPositive(s, '.');
      assert false;
    }
  }

  /** parse_price: clean the text, then convert it; None stands for the ValueError the
      conversion raises. */
  function ParsePrice(s: seq<char>): (r: Option<real>)
    ensures r.Some? ==> Count(s, ',') <= 1
    ensures r.Some? ==> exists i :: 0 <= i < |s| && IsDigit(s[i])
  {
    CleanKeepsDigits(s);
    ReadDecimal(Clean(s))
  }

  lemma CleanKeepsDigits(s: seq<char>)
    ensures (exists i :: 0 <= i < |Clean(s)| && IsDigit(Clean(s)[i])) ==> exists j :: 0 <= j < |s| && IsDigit(s[j])
  {
    var t := Clean(s);
    if i :| 0 <= i < |t| && IsDigit(t[i]) {
      assert t[i] in s;
    }
  }

  // ---- The locale format the cleaning is written for: "$", '.' every three digits, ',' and two decimals.

  function DigitChar(d: nat): (c: char)
    requires d < 10
    ensures IsDigit(c) && c as int - '0' as int == d
  {
    ('0' as int + d) as char
  }

  /** Decimal digits of n, without leading zeros. */
  function Digits(n: nat): (s: seq<char>)
    ensures |s| > 0 && AllDigits(s)
    ensures DigitsValue(s) == n
  {
    if n < 10 then [DigitChar(n)]
    else
      var s := Digits(n / 10) + [DigitChar(n % 10)];
      assert s[..|s| - 1] == Digits(n / 10);
      s
  }

  /** Exactly three digits of n < 1000, zero padded. */
  function Pad3(n: nat): (s: seq<char>)
    requires n < 1000
    ensures |s| == 3 && AllDigits(s)
    ensures DigitsValue(s) == n
  {
    var s := [DigitChar(n / 100), DigitChar(n / 10 % 10), DigitChar(n % 10)];
    PairValue(n / 100, n / 10 % 10);
    assert s[..2] == [DigitChar(n / 100), DigitChar(n / 10 % 10)];
    ThreeDigits(n);
    s
  }

  lemma ThreeDigits(n: nat)
    requires n < 1000
    ensures n / 100 < 10 && n / 10 % 10 < 10
    ensures (n / 100 * 10 + n / 10 % 10) * 10 + n % 10 == n
  {
  }

  /** Two digit characters read back as the two-digit number they spell. */
  lemma PairValue(a: nat, b: nat)
    requires a < 10 && b < 10
    ensures DigitsValue([DigitChar(a), DigitChar(b)]) == a * 10 + b
  {
    var s := [DigitChar(a), DigitChar(b)];
    assert s[..1] == [DigitChar(a)];
    assert s[..1][..0] == [];
    assert DigitsValue(s[..1]) == a;
    assert DigitsValue(s) == DigitsValue(s[..1]) * 10 + b;
  }

  /** n written with '.' between groups of three digits: 1234567 as "1.234.567". */
  function Grouped(n: nat): seq<char>
  {
    if n < 1000 then Digits(n) else Grouped(n / 1000) + ['.'] + Pad3(n % 1000)
  }

  /** A price of `cents` hundredths as the store displays it: "$1.234,56". */
  function LocalePrice(cents: nat): seq<char>
  {
    var r := cents % 100;
    ['$'] + Grouped(cents / 100) + [','] + [DigitChar(r / 10), DigitChar(r % 10)]
  }

  /** Cleaning removes exactly the group separators of a grouped number. */
  lemma CleanGrouped(n: nat)
    ensures |Clean(Grouped(n))| > 0 && AllDigits(Clean(Grouped(n)))
    ensures DigitsValue(Clean(Grouped(n))) == n
  {
    CleanIsPerChar(Grouped(n));
    PerCharGrouped(n);
  }

  lemma {:induction false} PerCharGrouped(n: nat)
    ensures |CleanPerChar(Grouped(n))| > 0 && AllDigits(CleanPerChar(Grouped(n)))
    ensures DigitsValue(CleanPerChar(Grouped(n))) == n
  {
    if n < 1000 {
      CleanPerCharDigits(Digits(n));
    } else {
      var hi, lo := Grouped(n / 1000), Pad3(n % 1000);
      PerCharGrouped(n / 1000);
      var g := CleanPerChar(hi);
      assert CleanPerChar(hi + ['.'] + lo) == g + lo by {
        CleanPerCharAppend(hi + ['.'], lo);
        CleanPerCharAppend(hi, ['.']);
        CleanPerCharDigits(lo);
      }
      DigitsValueAppend(g, lo);
      assert Pow10(|lo|) == 1000 by {
        assert Pow10(0) == 1;
        assert Pow10(1) == 10;
        assert Pow10(2) == 100;
      }
      assert n == n / 1000 * 1000 + n % 1000;
    }
  }

  /** Round trip: parsing a price written in the locale format gives back its value. */
  lemma LocalePriceRoundTrip(cents: nat)
    ensures ParsePrice(LocalePrice(cents)) == Some(cents as real / 100.0)
  {
    var q, r := cents / 100, cents % 100;
    assert LocalePrice(cents) == ['$'] + Grouped(q) + [','] + [DigitChar(r / 10), DigitChar(r % 10)];
    SplitRoundTrip(q, r);
    SameCents(q, r, cents);
  }

  lemma SameCents(q: nat, r: nat, cents: nat)
    requires q == cents / 100 && r == cents % 100
    ensures (q * 100 + r) as real / 100.0 == cents as real / 100.0
  {
    assert q * 100 + r == cents;
  }

  lemma SplitRoundTrip(q: nat, r: nat)
    requires r < 100
    ensures ParsePrice(['$'] + Grouped(q) + [','] + [DigitChar(r / 10), DigitChar(r % 10)])
         == Some((q * 100 + r) as real / 100.0)
  {
    var two := [DigitChar(r / 10), DigitChar(r % 10)];
    var text := ['$'] + Grouped(q) + [','] + two;
    var g := CleanPerChar(Grouped(q));
    CleanIsPerChar(text);
    PerCharLocale(q, two);
    PerCharGrouped(q);
    ReadLocaleDigits(q, r, g, two);
  }

  lemma PerCharLocale(q: nat, two: seq<char>)
    requires AllDigits(two)
    ensures CleanPerChar(['$'] + Grouped(q) + [','] + two) == CleanPerChar(Grouped(q)) + ['.'] + two
  {
    var g := Grouped(q);
    CleanPerCharDigits(two);
    assert CleanPerChar(['$']) == [] by { assert ['$'][1..] == []; }
    assert CleanPerChar([',']) == ['.'] by { assert [','][1..] == []; }
    var dollar := ['$'] + g;
    CleanPerCharAppend(['$'], g);
    assert CleanPerChar(dollar) == CleanPerChar(g);
    var comma := dollar + [','];
    CleanPerCharAppend(dollar, [',']);
    assert CleanPerChar(comma) == CleanPerChar(g) + ['.'];
    CleanPerCharAppend(comma, two);
  }

  /** Reading "digits.dd" back: the integral part is q and the two decimals are r. */
  lemma ReadLocaleDigits(q: nat, r: nat, g: seq<char>, two: seq<char>)
    requires r < 100
    requires |g| > 0 && AllDigits(g) && DigitsValue(g) == q
    requires two == [DigitChar(r / 10), DigitChar(r % 10)]
    ensures ReadDecimal(g + ['.'] + two) == Some((q * 100 + r) as real / 100.0)
  {
    PairValue(r / 10, r % 10);
    ReadPointed(g, two);
    CentsValue(q, r, g, two);
  }

  /** Unsigned digits, a point and more digits read as the whole part plus the fraction. */
  lemma ReadPointed(whole: seq<char>, frac: seq<char>)
    requires |whole| + |frac| > 0 && AllDigits(whole) && AllDigits(frac)
    ensures ReadDecimal(whole + ['.'] + frac) == Some(DecimalValue(whole, frac))
  {
    var t := whole + ['.'] + frac;
    assert !(t[0] == '-' || t[0] == '+') by {
      assert t[0] == if whole == [] then '.' else whole[0];
    }
    PointAfterDigits(whole, frac);
    assert t[..|whole|] == whole;
    assert t[|whole| + 1..] == frac;
  }

  /** In digits, a point and more text, the first point is the one after the digits. */
  lemma PointAfterDigits(g: seq<char>, rest: seq<char>)
    requires AllDigits(g)
    ensures IndexOf(g + ['.'] + rest, '.') == |g|
  {
    var t := g + ['.'] + rest;
    var k := IndexOf(t, '.');
    assert t[|g|] == '.';
    assert forall i :: 0 <= i < |g| ==> t[i] == g[i];
  }

  lemma CentsValue(q: nat, r: nat, g: seq<char>, two: seq<char>)
    requires AllDigits(g) && AllDigits(two) && |two| == 2
    requires DigitsValue(g) == q && DigitsValue(two) == r
    ensures DecimalValue(g, two) == (q * 100 + r) as real / 100.0
  {
    assert Pow10(2) == 100 by { assert Pow10(1) == 10; }
  }

  /** The two examples of the price format: "$1.234,56" is 1234.56 and "$10,00" is 10. */
  lemma ParsePriceExampleGrouped(text: seq<char>)
    requires text == "$1.234,56"
    ensures ParsePrice(text) == Some(1234.56)
  {
    LocalePriceGroupedText();
    LocalePriceRoundTrip(123456);
  }

  lemma LocalePriceGroupedText()
    ensures LocalePrice(123456) == "$1.234,56"
  {
    assert 123456 / 100 == 1234 && 123456 % 100 == 56;
    assert 1234 / 1000 == 1 && 1234 % 1000 == 234;
    assert Digits(1) == "1";
    assert Pad3(234) == "234";
    assert Grouped(1234) == "1.234";
    assert [DigitChar(5), DigitChar(6)] == "56";
  }

  lemma ParsePriceExampleSmall(text: seq<char>)
    requires text == "$10,00"
    ensures ParsePrice(text) == Some(10.0)
  {
    assert LocalePrice(1000) == "$10,00";
    LocalePriceRoundTrip(1000);
  }
}
