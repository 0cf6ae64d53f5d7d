/**
 * Brazilian currency amounts: the fail-soft reader `valor_brasileiro`
 * (BUSCAR.py and pages/4_DASHBOARD.py, which define it identically), the
 * `VALOR` cleaning of page/CADASTRAR.py, and the writer `br_money`.
 *
 * Amounts are exact: a reader returns a `real`, the writer takes an amount in
 * whole cents. Python's `float()` is modelled by `ParseDecimal`, the plain
 * decimal forms `[+|-]digits[.digits]`, `[+|-]digits.` and `[+|-].digits`.
 */
module Money {
  import opened Wrappers
  import opened Text
  import opened Pedidos
  import opened Calendar
  import Buscar

  // ---------------------------------------------------------------------
  // Decimal numbers
  // ---------------------------------------------------------------------

  function Pow10(n: nat): (p: nat)
    ensures p >= 1
  {
    if n == 0 then 1 else 10 * Pow10(n - 1)
  }

  /** The value of a digit string is read left to right, one block after the other. */
  lemma {:induction false} DigitsValueAppend(a: string, b: string)
    requires AllDigits(a) && AllDigits(b)
    ensures AllDigits(a + b)
    ensures DigitsValue(a + b) == DigitsValue(a) * Pow10(|b|) + DigitsValue(b)
    decreases |b|
  {
    if b == [] {
      assert a + b == a;
    } else {
      var b' := b[..|b| - 1];
      var last := (b[|b| - 1] - '0') as nat;
      assert (a + b)[..|a + b| - 1] == a + b';
      assert (a + b)[|a + b| - 1] == b[|b| - 1];
      DigitsValueAppend(a, b');
      var x, p := DigitsValue(a), Pow10(|b'|);
      assert DigitsValue(a + b) == 10 * (x * p + DigitsValue(b')) + last;
      assert DigitsValue(b) == 10 * DigitsValue(b') + last;
      assert Pow10(|b|) == 10 * p;
      TimesTen(x, p);
    }
  }

  lemma TimesTen(x: int, p: int)
    ensures 10 * (x * p) == x * (10 * p)
  {
  }

  /** `float(body)` for an unsigned body: digits, optionally a point and more digits. */
  function ParseUnsigned(body: string): (r: Option<real>)
    ensures r.Some? ==> r.value >= 0.0
  {
    var k := DigitPrefix(body);
    var ip := body[..k];
    var rest := body[k..];
    if rest == [] then
      if ip == [] then None else Some(DigitsValue(ip) as real)
    else if rest[0] != '.' || !AllDigits(rest[1..]) || (ip == [] && |rest| == 1) then None
    else Some(DigitsValue(ip) as real + Fraction(rest[1..]))
  }

  /** The value of the digits after the decimal point. */
  function Fraction(digits: string): (v: real)
    requires AllDigits(digits)
    ensures v >= 0.0
  {
    DigitsValue(digits) as real / Pow10(|digits|) as real
  }

  /** Two decimals are hundredths. */
  lemma FractionOfTwo(f: string)
    requires |f| == 2 && AllDigits(f)
    ensures Fraction(f) == DigitsValue(f) as real / 100.0
  {
    assert Pow10(|f|) == 100;
  }

  /** `float(s)` on the decimal forms; `None` where Python raises `ValueError`. */
  function ParseDecimal(s: string): (r: Option<real>)
    ensures r.Some? ==> s != []
    ensures r.Some? && s[0] == '-' ==> r.value <= 0.0
    ensures r.Some? && s[0] != '-' ==> r.value >= 0.0
  {
    if s != [] && (s[0] == '+' || s[0] == '-') then
      match ParseUnsigned(s[1..])
      case None => None
      case Some(v) => Some(if s[0] == '-' then -v else v)
    else ParseUnsigned(s)
  }

  /** What `float()` accepts here is made of digits and points. */
  lemma ParseUnsignedChars(body: string)
    requires ParseUnsigned(body).Some?
    ensures body != [] && forall i :: 0 <= i < |body| ==> IsDigit(body[i]) || body[i] == '.'
  {
    var k := DigitPrefix(body);
    var rest := body[k..];
    assert forall i :: 0 <= i < k ==> body[i] == body[..k][i];
    if rest != [] {
      assert forall i :: k < i < |body| ==> body[i] == rest[1..][i - k - 1];
    }
  }

  /** What `float()` accepts here is digits and points after an optional sign. */
  lemma ParseDecimalChars(s: string)
    requires ParseDecimal(s).Some?
    ensures forall i :: 0 <= i < |s| ==> IsDigit(s[i]) || s[i] == '.' || (i == 0 && (s[i] == '+' || s[i] == '-'))
  {
    if s != [] && (s[0] == '+' || s[0] == '-') {
      ParseUnsignedChars(s[1..]);
      assert forall i :: 0 < i < |s| ==> s[i] == s[1..][i - 1];
    } else {
      ParseUnsignedChars(s);
    }
  }

  /** An unsigned fixed-point number with two decimals reads back as its value. */
  lemma ParseUnsignedTwoDecimals(body: string, d: string, f: string)
    requires d != [] && AllDigits(d) && |f| == 2 && AllDigits(f)
    requires body == d + "." + f
    ensures ParseUnsigned(body) == Some(DigitsValue(d) as real + DigitsValue(f) as real / 100.0)
  {
    var tail := "." + f;
    assert body == d + tail;
    DigitPrefixOf(d, tail);
    DigitsThenFraction(body, d, tail, f);
    FractionOfTwo(f);
  }

  /** Digits, a point and more digits read as the integer part plus the fraction. */
  lemma DigitsThenFraction(body: string, d: string, tail: string, f: string)
    requires d != [] && AllDigits(d) && AllDigits(f) && tail == "." + f
    requires body == d + tail && DigitPrefix(body) == |d|
    ensures ParseUnsigned(body) == Some(DigitsValue(d) as real + Fraction(f))
  {
    assert body[..|d|] == d && body[|d|..] == tail;
    assert tail[0] == '.' && tail[1..] == f;
  }

  /** A negative fixed-point number with two decimals reads back as its value. */
  lemma ParseNegativeTwoDecimals(s: string, d: string, f: string)
    requires d != [] && AllDigits(d) && |f| == 2 && AllDigits(f)
    requires s == "-" + d + "." + f
    ensures ParseDecimal(s) == Some(-(DigitsValue(d) as real + DigitsValue(f) as real / 100.0))
  {
    var body := d + "." + f;
    assert s[0] == '-' && s[1..] == body;
    ParseUnsignedTwoDecimals(body, d, f);
    ParseMinus(s, DigitsValue(d) as real + DigitsValue(f) as real / 100.0);
  }

  /** A minus sign negates what the rest reads as. */
  lemma ParseMinus(s: string, v: real)
    requires s != [] && s[0] == '-' && ParseUnsigned(s[1..]) == Some(v)
    ensures ParseDecimal(s) == Some(-v)
  {
  }

  /** A non-negative fixed-point number with two decimals reads back as its value. */
  lemma ParseTwoDecimals(s: string, d: string, f: string)
    requires d != [] && AllDigits(d) && |f| == 2 && AllDigits(f)
    requires s == d + "." + f
    ensures ParseDecimal(s) == Some(DigitsValue(d) as real + DigitsValue(f) as real / 100.0)
  {
    ParseUnsignedTwoDecimals(s, d, f);
    assert IsDigit(s[0]);
  }

  // ---------------------------------------------------------------------
  // valor_brasileiro (BUSCAR.py, pages/4_DASHBOARD.py)
  // ---------------------------------------------------------------------

  /** The characters `re.sub(r"[R$\s\.]", "", s)` deletes. */
  predicate Deleted(c: char) {
    c == 'R' || c == '$' || IsSpace(c) || c == '.'
  }

  /**
   * `re.sub(r"[R$\s\.]", "", s).replace(",", ".")`: both steps act on single
   * characters, so they are applied character by character.
   */
  function CleanBr(s: string): (r: string)
    ensures |r| <= |s|
  {
    if s == [] then []
    else (if Deleted(s[0]) then [] else [if s[0] == ',' then '.' else s[0]]) + CleanBr(s[1..])
  }

  /** What the cleaning leaves has no `R`, no `$`, no comma and no whitespace. */
  lemma {:induction false} CleanBrLeaves(s: string)
    ensures forall i :: 0 <= i < |CleanBr(s)| ==> CleanBr(s)[i] !in {'R', '$', ','} && !IsSpace(CleanBr(s)[i])
    decreases |s|
  {
    if s != [] {
      var head := if Deleted(s[0]) then [] else [if s[0] == ',' then '.' else s[0]];
      var rest := CleanBr(s[1..]);
      CleanBrLeaves(s[1..]);
      assert CleanBr(s) == head + rest;
      assert forall i :: |head| <= i < |head + rest| ==> (head + rest)[i] == rest[i - |head|];
    }
  }

  lemma {:induction false} CleanBrAppend(a: string, b: string)
    ensures CleanBr(a + b) == CleanBr(a) + CleanBr(b)
    decreases |a|
  {
    if a != [] {
      var x := if Deleted(a[0]) then [] else [if a[0] == ',' then '.' else a[0]];
      assert (a + b)[0] == a[0] && (a + b)[1..] == a[1..] + b;
      assert CleanBr(a + b) == x + CleanBr(a[1..] + b);
      CleanBrAppend(a[1..], b);
      assert CleanBr(a) == x + CleanBr(a[1..]);
    } else {
      assert a + b == b;
    }
  }

  lemma {:induction false} CleanBrDigits(d: string)
    requires AllDigits(d)
    ensures CleanBr(d) == d
    decreases |d|
  {
    if d != [] {
      CleanBrDigits(d[1..]);
      assert d == [d[0]] + d[1..];
    }
  }

  /** A blank cell (`pd.isna`) or a text cell. */
  function ValorBrasileiro(c: Buscar.SheetCell): (v: real)
    ensures c.Blank? ==> v == 0.0
    ensures c.Str? && ParseDecimal(CleanBr(Strip(c.text))).None? ==> v == 0.0
  {
    match c
    case Blank => 0.0
    case Str(t) =>
      match ParseDecimal(CleanBr(Strip(t)))
      case None => 0.0
      case Some(v) => v
  }

  /** Anything left after cleaning other than digits, a sign and points reads as 0. */
  lemma ValorBrasileiroFailSoft(t: string, i: int)
    requires var s := CleanBr(Strip(t)); 0 <= i < |s| && !IsDigit(s[i]) && s[i] != '.' && s[i] != '+' && s[i] != '-'
    ensures ValorBrasileiro(Buscar.Str(t)) == 0.0
  {
    var s := CleanBr(Strip(t));
    if ParseDecimal(s).Some? {
      ParseDecimalChars(s);
    }
  }

  // ---------------------------------------------------------------------
  // br_money (BUSCAR.py, pages/4_DASHBOARD.py)
  // ---------------------------------------------------------------------

  /** A number below 1000 written with three digits. */
  function Pad3(k: int): (s: string)
    requires 0 <= k < 1000
    ensures |s| == 3 && AllDigits(s) && DigitsValue(s) == k
  {
    var s := [(k / 100) as char + '0'] + Pad2(k % 100);
    DigitsValueAppend([(k / 100) as char + '0'], Pad2(k % 100));
    assert [(k / 100) as char + '0'][..0] == [];
    s
  }

  /** `f"{n:,}"`: the digits of `n` in groups of three separated by `,` (before the swap). */
  function Grouped(n: nat, sep: char): (s: string)
    decreases n
  {
    if n < 1000 then NatToString(n) else Grouped(n / 1000, sep) + [sep] + Pad3(n % 1000)
  }

  /** Cleaning the `.`-grouped integer part gives back the plain digits of the number. */
  lemma {:induction false} CleanGrouped(n: nat)
    ensures var g := CleanBr(Grouped(n, '.'));
      g != [] && AllDigits(g) && DigitsValue(g) == n
    decreases n
  {
    if n < 1000 {
      CleanBrDigits(NatToString(n));
    } else {
      var q, m := n / 1000, n % 1000;
      CleanGrouped(q);
      var h, p := Grouped(q, '.'), Pad3(m);
      var g := CleanBr(h);
      assert CleanBr(Grouped(n, '.')) == g + p by {
        assert Grouped(n, '.') == h + "." + p;
        CleanBrAppend(h + ".", p);
        CleanBrAppend(h, ".");
        CleanBrDigits(p);
        assert CleanBr(".") == [];
      }
      DigitsValueAppend(g, p);
      assert Pow10(|p|) == 1000;
      ThousandsSplit(n, DigitsValue(g), DigitsValue(p), DigitsValue(g + p));
    }
  }

  /** A number is its thousands, times 1000, plus the rest. */
  lemma ThousandsSplit(n: nat, q: int, m: int, v: int)
    requires q == n / 1000 && m == n % 1000 && v == q * 1000 + m
    ensures v == n
  {
  }

  /**
   * `br_money(valor)` for an amount in cents (`None` for NaN):
   * `f"R$ {valor:,.2f}"` with `,` and `.` swapped.
   */
  function BrMoney(cents: Option<int>): (s: string)
    ensures cents.None? ==> s == "R$ 0,00"
    ensures cents.Some? ==> |s| >= 7 && s[..3] == "R$ " && s[|s| - 3] == ','
  {
    match cents
    case None => "R$ 0,00"
    case Some(c) =>
      var a := if c < 0 then -c else c;
      "R$ " + (if c < 0 then "-" else "") + Grouped(a / 100, '.') + "," + Pad2(a % 100)
  }

  lemma StripUnchanged(s: string)
    requires s != [] && !IsSpace(s[0]) && !IsSpace(s[|s| - 1])
    ensures Strip(s) == s
  {
  }

  /** Cleaning a `br_money` text keeps the sign, the digits and the decimal comma (as a point). */
  lemma CleanBrMoney(s: string, head: string, sign: string, g: string, comma: string, f: string)
    requires CleanBr(head) == sign && CleanBr(comma) == "." && CleanBr(f) == f
    requires s == head + g + comma + f
    ensures CleanBr(s) == sign + CleanBr(g) + "." + f
  {
    var x2 := head + g;
    var x3 := x2 + comma;
    CleanBrStep(head, g, sign);
    CleanBrStep(x2, comma, sign + CleanBr(g));
    CleanBrStep(x3, f, sign + CleanBr(g) + ".");
  }

  lemma CleanBrStep(x: string, y: string, cleaned: string)
    requires CleanBr(x) == cleaned
    ensures CleanBr(x + y) == cleaned + CleanBr(y)
  {
    CleanBrAppend(x, y);
  }

  /**
   * The cleaning deletes `R$ `, keeps a minus sign and turns the comma into a
   * point. The two fixed texts come in as parameters so that the cleaning is
   * not unfolded on literals wherever this lemma is used.
   */
  lemma CleanBrLiterals(prefix: string, comma: string, sign: string)
    requires prefix == "R$ " && comma == "," && (sign == "" || sign == "-")
    ensures CleanBr(prefix) == [] && CleanBr(prefix + sign) == sign && CleanBr(comma) == "."
  {
    var p1, p2 := prefix[1..], prefix[2..];
    assert p2[1..] == [] && p1[1..] == p2;
    assert Deleted(prefix[0]) && Deleted(p1[0]) && Deleted(p2[0]);
    assert CleanBr(p2) == CleanBr([]);
    assert CleanBr(p1) == CleanBr(p2);
    assert comma[1..] == [];
    if sign != "" { assert sign[1..] == []; }
    CleanBrStep(prefix, sign, []);
    assert [] + CleanBr(sign) == sign;
  }

  /** The same cleaning without the `R$ ` prefix. */
  lemma CleanBrSignedMoney(rest: string, sign: string, g: string, comma: string, f: string)
    requires (sign == "" || sign == "-") && comma == "," && CleanBr(f) == f
    requires rest == sign + g + comma + f
    ensures CleanBr(rest) == sign + CleanBr(g) + "." + f
  {
    assert CleanBr(comma) == "." by { assert comma[1..] == []; }
    assert CleanBr(sign) == sign by { if sign != "" { assert sign[1..] == []; } }
    CleanBrMoney(rest, sign, sign, g, comma, f);
  }

  lemma Cents(a: nat)
    ensures (a / 100) as real + (a % 100) as real / 100.0 == a as real / 100.0
  {
    assert a == 100 * (a / 100) + a % 100;
  }

  /** The cleaned `br_money` text: the sign, the plain digits, a point and the two decimals. */
  lemma BrMoneyCleaned(c: int, sign: string, g: string, f: string)
    requires sign == (if c < 0 then "-" else "")
    requires g == Grouped((if c < 0 then -c else c) / 100, '.') && f == Pad2((if c < 0 then -c else c) % 100)
    ensures BrMoney(Some(c)) == "R$ " + sign + g + "," + f
    ensures CleanBr(Strip(BrMoney(Some(c)))) == sign + CleanBr(g) + "." + f
  {
    var s := BrMoney(Some(c));
    var prefix, comma := "R$ ", ",";
    assert s == prefix + sign + g + comma + f;
    assert s[0] == 'R' && s[|s| - 1] == f[1];
    StripUnchanged(s);
    CleanBrLiterals(prefix, comma, sign);
    CleanBrDigits(f);
    CleanBrMoney(s, prefix + sign, sign, g, comma, f);
  }

  /** Reading what `br_money` writes gives the amount back. */
  lemma BrMoneyRoundTrip(c: int)
    ensures ValorBrasileiro(Buscar.Str(BrMoney(Some(c)))) == c as real / 100.0
  {
    var a := if c < 0 then -c else c;
    var sign := if c < 0 then "-" else "";
    var g := Grouped(a / 100, '.');
    var f := Pad2(a % 100);
    BrMoneyCleaned(c, sign, g, f);
    var t := CleanBr(Strip(BrMoney(Some(c))));
    CleanGrouped(a / 100);
    var d := CleanBr(g);
    ParseSignedTwoDecimals(t, sign, d, f);
    SignedCents(c, DigitsValue(d), DigitsValue(f));
  }

  /** An amount in cents is its signed whole part plus its signed hundredths. */
  lemma SignedCents(c: int, units: nat, hundredths: nat)
    requires units == (if c < 0 then -c else c) / 100 && hundredths == (if c < 0 then -c else c) % 100
    ensures var v := units as real + hundredths as real / 100.0;
      (if c < 0 then -v else v) == c as real / 100.0
  {
    Cents(if c < 0 then -c else c);
  }

  /** A cleaned `br_money` text parses as its signed amount. */
  lemma ParseSignedTwoDecimals(t: string, sign: string, d: string, f: string)
    requires (sign == "" || sign == "-") && d != [] && AllDigits(d) && |f| == 2 && AllDigits(f)
    requires t == sign + d + "." + f
    ensures var v := DigitsValue(d) as real + DigitsValue(f) as real / 100.0;
      ParseDecimal(t) == Some(if sign == "-" then -v else v)
  {
    if sign == "-" {
      ParseNegativeTwoDecimals(t, d, f);
    } else {
      assert t == d + "." + f;
      ParseTwoDecimals(t, d, f);
    }
  }

  // ---------------------------------------------------------------------
  // The VALOR column of page/CADASTRAR.py
  // ---------------------------------------------------------------------

  /** `.astype(str)`: a missing cell reads "nan". */
  function CellText(c: Buscar.SheetCell): string {
    match c
    case Blank => "nan"
    case Str(t) => t
  }

  /** `str.replace("R$", "")`: every occurrence, left to right, without overlap. */
  function DropRS(s: string): (r: string)
    ensures |r| <= |s|
  {
    if |s| >= 2 && s[0] == 'R' && s[1] == '$' then DropRS(s[2..])
    else if s == [] then []
    else [s[0]] + DropRS(s[1..])
  }

  /** `str.replace(".", "")` */
  function DropDots(s: string): (r: string)
    ensures |r| <= |s| && '.' !in r
  {
    if s == [] then [] else (if s[0] == '.' then [] else [s[0]]) + DropDots(s[1..])
  }

  /** `str.replace(",", ".")` */
  function CommaToDot(s: string): (r: string)
    ensures |r| == |s| && ',' !in r
    ensures forall i :: 0 <= i < |s| ==> r[i] == if s[i] == ',' then '.' else s[i]
  {
    seq(|s|, i requires 0 <= i < |s| => if s[i] == ',' then '.' else s[i])
  }

  /** The cleaned text before `pd.to_numeric`. */
  function CleanCadastrar(c: Buscar.SheetCell): (r: string)
    ensures |r| <= |CellText(c)| && ',' !in r
  {
    var t := CommaToDot(DropDots(DropRS(CellText(c))));
    StripWithout(t, ',');
    Strip(t)
  }

  /** `pd.to_numeric(..., errors="coerce").fillna(0.0)` after the cleaning. */
  function CadastrarValor(c: Buscar.SheetCell): (v: real)
    ensures ParseDecimal(CleanCadastrar(c)).None? ==> v == 0.0
  {
    match ParseDecimal(CleanCadastrar(c))
    case None => 0.0
    case Some(v) => v
  }

  lemma {:induction false} DropRSNoR(s: string)
    requires 'R' !in s
    ensures DropRS(s) == s
    decreases |s|
  {
    if s != [] {
      assert s[0] != 'R' && 'R' !in s[1..];
      DropRSNoR(s[1..]);
    }
  }

  lemma {:induction false} DropDotsAppend(a: string, b: string)
    ensures DropDots(a + b) == DropDots(a) + DropDots(b)
    decreases |a|
  {
    if a != [] {
      var x := if a[0] == '.' then [] else [a[0]];
      assert (a + b)[0] == a[0] && (a + b)[1..] == a[1..] + b;
      assert DropDots(a + b) == x + DropDots(a[1..] + b);
      DropDotsAppend(a[1..], b);
      assert DropDots(a) == x + DropDots(a[1..]);
    } else {
      assert a + b == b;
    }
  }

  /** Where no character is deleted, `re.sub` then `replace` is one `replace`. */
  lemma {:induction false} CleanBrNoDeleted(s: string)
    requires forall i :: 0 <= i < |s| ==> s[i] == '.' || s[i] == ',' || !Deleted(s[i])
    ensures CleanBr(s) == CommaToDot(DropDots(s))
    decreases |s|
  {
    if s != [] {
      CleanBrNoDeleted(s[1..]);
      var h := if s[0] == '.' then [] else [s[0]];
      assert DropDots(s) == h + DropDots(s[1..]);
      CommaToDotAppend(h, DropDots(s[1..]));
      assert CommaToDot(h) == if Deleted(s[0]) then [] else [if s[0] == ',' then '.' else s[0]];
    }
  }

  lemma CommaToDotAppend(a: string, b: string)
    ensures CommaToDot(a + b) == CommaToDot(a) + CommaToDot(b)
  {
    assert forall i :: 0 <= i < |a| ==> (a + b)[i] == a[i];
    assert forall i :: |a| <= i < |a + b| ==> (a + b)[i] == b[i - |a|];
  }

  /** The text after the `R$ ` of a `br_money` text has only digits, a sign, points and the comma. */
  lemma BrMoneyTailChars(rest: string, sign: string, g: string, comma: string, f: string, n: nat)
    requires sign == "" || sign == "-"
    requires comma == "," && AllDigits(f) && g == Grouped(n, '.')
    requires rest == sign + g + comma + f
    ensures forall i :: 0 <= i < |rest| ==> rest[i] == ',' || rest[i] == '-' || rest[i] == '.' || IsDigit(rest[i])
  {
    GroupedChars(n);
    forall i | 0 <= i < |rest|
      ensures rest[i] == ',' || rest[i] == '-' || rest[i] == '.' || IsDigit(rest[i])
    {
      if i < |sign| {
        assert rest[i] == sign[i];
      } else if i < |sign| + |g| {
        assert rest[i] == g[i - |sign|];
      } else if i > |sign| + |g| {
        assert rest[i] == f[i - |sign| - |g| - 1];
      }
    }
  }

  /** page/CADASTRAR.py's cleaning turns a `br_money` text into the same number text as BUSCAR.py's. */
  lemma CadastrarCleansBrMoney(c: int)
    ensures CleanCadastrar(Buscar.Str(BrMoney(Some(c)))) == CleanBr(Strip(BrMoney(Some(c))))
  {
    var a := if c < 0 then -c else c;
    var sign := if c < 0 then "-" else "";
    var g := Grouped(a / 100, '.');
    var f := Pad2(a % 100);
    var s := BrMoney(Some(c));
    var prefix, comma := "R$ ", ",";
    var rest := sign + g + comma + f;
    var w := sign + CleanBr(g) + "." + f;
    BrMoneyCleaned(c, sign, g, f);
    assert s == prefix + rest by { ConcatAssoc5(prefix, sign, g, comma, f); }
    BrMoneyTailChars(rest, sign, g, comma, f, a / 100);
    assert CleanBr(rest) == w by {
      CleanBrDigits(f);
      CleanBrSignedMoney(rest, sign, g, comma, f);
    }
    assert w != [] && !IsSpace(w[0]) && !IsSpace(w[|w| - 1]) by {
      CleanGrouped(a / 100);
      SignedNumberEdges(w, sign, CleanBr(g), f);
    }
    CadastrarSteps(s, prefix, rest, w);
  }

  /** A signed number text neither starts nor ends with a space. */
  lemma SignedNumberEdges(w: string, sign: string, d: string, f: string)
    requires (sign == "" || sign == "-") && d != [] && AllDigits(d) && |f| == 2 && AllDigits(f)
    requires w == sign + d + "." + f
    ensures w != [] && !IsSpace(w[0]) && !IsSpace(w[|w| - 1])
  {
    assert w[|w| - 1] == f[1];
    if sign == "" {
      assert w[0] == d[0];
    }
  }

  /** The `R$`, point and comma replacements and the strip on `R$ ` followed by a number text. */
  lemma CadastrarSteps(s: string, prefix: string, rest: string, w: string)
    requires prefix == "R$ " && s == prefix + rest
    requires forall i :: 0 <= i < |rest| ==> rest[i] == ',' || rest[i] == '-' || rest[i] == '.' || IsDigit(rest[i])
    requires CleanBr(rest) == w && w != [] && !IsSpace(w[0]) && !IsSpace(w[|w| - 1])
    ensures Strip(CommaToDot(DropDots(DropRS(s)))) == w
  {
    var space := " ";
    DropRSPrefix(s, prefix, space, rest);
    DropDotsAppend(space, rest);
    var u := DropDots(rest);
    CommaToDotSpace(space, u);
    CleanBrNumberChars(rest);
    StripLeadingSpace(space + w, w);
  }

  /** `replace("R$", "")` on `R$ ` followed by a text without `R`. */
  lemma DropRSPrefix(s: string, prefix: string, space: string, rest: string)
    requires prefix == "R$ " && space == " " && s == prefix + rest
    requires forall i :: 0 <= i < |rest| ==> rest[i] == ',' || rest[i] == '-' || rest[i] == '.' || IsDigit(rest[i])
    ensures DropRS(s) == space + rest
  {
    assert 'R' !in space + rest;
    DropRSNoR(space + rest);
    assert s[2..] == space + rest;
  }

  lemma CommaToDotSpace(space: string, u: string)
    requires space == " "
    ensures CommaToDot(space + u) == space + CommaToDot(u)
  {
  }

  /** On digits, signs, points and commas the two cleanings agree. */
  lemma CleanBrNumberChars(rest: string)
    requires forall i :: 0 <= i < |rest| ==> rest[i] == ',' || rest[i] == '-' || rest[i] == '.' || IsDigit(rest[i])
    ensures CleanBr(rest) == CommaToDot(DropDots(rest))
  {
    forall i | 0 <= i < |rest| ensures rest[i] == '.' || rest[i] == ',' || !Deleted(rest[i]) {
      NumberCharKept(rest[i]);
    }
    CleanBrNoDeleted(rest);
  }

  lemma NumberCharKept(c: char)
    requires c == ',' || c == '-' || c == '.' || IsDigit(c)
    ensures c == '.' || c == ',' || !Deleted(c)
  {
  }

  /** Both cleanings read what `br_money` writes as the amount it was given. */
  lemma CleaningsAgreeOnBrMoney(c: int)
    ensures CadastrarValor(Buscar.Str(BrMoney(Some(c)))) == c as real / 100.0
    ensures ValorBrasileiro(Buscar.Str(BrMoney(Some(c)))) == c as real / 100.0
  {
    CadastrarCleansBrMoney(c);
    BrMoneyRoundTrip(c);
  }

  /** The integer part of `br_money` uses only digits and `.` separators. */
  lemma {:induction false} GroupedChars(n: nat)
    ensures forall i :: 0 <= i < |Grouped(n, '.')| ==> IsDigit(Grouped(n, '.')[i]) || Grouped(n, '.')[i] == '.'
    decreases n
  {
    if n >= 1000 {
      GroupedChars(n / 1000);
      var h := Grouped(n / 1000, '.');
      var p := Pad3(n % 1000);
      forall i | 0 <= i < |Grouped(n, '.')| ensures IsDigit(Grouped(n, '.')[i]) || Grouped(n, '.')[i] == '.' {
        if i < |h| { assert Grouped(n, '.')[i] == h[i]; }
        else if i > |h| { assert Grouped(n, '.')[i] == p[i - |h| - 1]; }
      }
    }
  }

  /**
   * The two cleanings drift apart: "R$ 1 234,50" reads as 1234.5 in BUSCAR.py
   * (every space is deleted) but as 0 in page/CADASTRAR.py (inner spaces stay
   * and the number does not parse).
   */
  lemma CleaningsDrift()
    ensures ValorBrasileiro(Buscar.Str("R$ 1 234,50")) == 1234.5
    ensures CadastrarValor(Buscar.Str("R$ 1 234,50")) == 0.0
  {
    var t := "R$ 1 234,50";
    assert Strip(t) == t by {
      assert t[0] == 'R' && t[|t| - 1] == '0';
      StripUnchanged(t);
    }
    assert ValorBrasileiro(Buscar.Str(t)) == 1234.5 by {
      DriftBuscar();
    }
    assert CadastrarValor(Buscar.Str(t)) == 0.0 by {
      DriftCadastrar();
    }
  }

  lemma DriftBuscar()
    ensures ParseDecimal(CleanBr("R$ 1 234,50")) == Some(1234.5)
  {
    var prefix, g, comma, f := "R$ ", "1 234", ",", "50";
    assert prefix + g + comma + f == "R$ 1 234,50";
    DriftBuscarPieces(prefix, g, comma, f);
  }

  /** The same reading, piece by piece: the spaced thousands `1 234` clean to `1234`. */
  lemma DriftBuscarPieces(prefix: string, g: string, comma: string, f: string)
    requires prefix == "R$ " && g == "1 234" && comma == "," && f == "50"
    ensures ParseDecimal(CleanBr(prefix + g + comma + f)) == Some(1234.5)
  {
    var t := prefix + g + comma + f;
    var one, digits := "1", "234";
    var d := one + digits;
    assert CleanBr(g) == d by {
      var space := " ";
      assert g == one + space + digits;
      CleanBrDigits(one);
      CleanBrDigits(digits);
      CleanBrStep(one, space, one);
      CleanBrStep(one + space, digits, one);
    }
    assert CleanBr(t) == d + "." + f by {
      CleanBrLiterals(prefix, comma, "");
      CleanBrDigits(f);
      CleanBrMoney(t, prefix, [], g, comma, f);
    }
    DriftDigits(one, digits, f);
    ParseTwoDecimals(CleanBr(t), d, f);
  }

  lemma DriftDigits(one: string, digits: string, f: string)
    requires one == "1" && digits == "234" && f == "50"
    ensures AllDigits(one + digits) && DigitsValue(one + digits) == 1234 && DigitsValue(f) == 50
  {
    assert DigitsValue(f) == 50 by {
      assert DigitsValue(f[..1]) == 5 by { assert f[..1][..0] == []; }
    }
    var d2, d23 := digits[..1], digits[..2];
    assert DigitsValue(d2) == 2 by { assert d2[..0] == []; }
    assert DigitsValue(d23) == 23 by { assert d23[..1] == d2; }
    assert DigitsValue(digits) == 234 by { assert digits[..2] == d23; }
    assert DigitsValue(one) == 1 by { assert one[..0] == []; }
    DigitsValueAppend(one, digits);
  }

  /** A text with no point is left alone by `replace(".", "")`. */
  lemma {:induction false} DropDotsNoDot(s: string)
    requires '.' !in s
    ensures DropDots(s) == s
    decreases |s|
  {
    if s != [] {
      assert s[0] != '.' && '.' !in s[1..];
      DropDotsNoDot(s[1..]);
    }
  }

  lemma DriftCadastrar()
    ensures ParseDecimal(Strip(CommaToDot(DropDots(DropRS("R$ 1 234,50"))))) == None
  {
    DriftTail();
    SpacedNumberRejected();
  }

  /** `R$` goes, and there is no other `R` and no point to drop. */
  lemma DriftTail()
    ensures DropDots(DropRS("R$ 1 234,50")) == " 1 234,50"
  {
    var t := "R$ 1 234,50";
    var tail := t[2..];
    assert tail == " 1 234,50";
    assert 'R' !in tail && '.' !in tail;
    DropRSNoR(tail);
    DropDotsNoDot(tail);
  }

  /** With a space between the thousands, the comma-to-point text is refused. */
  lemma SpacedNumberRejected()
    ensures ParseDecimal(Strip(CommaToDot(" 1 234,50"))) == None
  {
    var tail := " 1 234,50";
    var x := CommaToDot(tail);
    assert |x| == 9 && x[0] == ' ' && x[1] == '1' && x[2] == ' ' && x[8] == '0' by {
      assert tail[0] == ' ' && tail[1] == '1' && tail[2] == ' ' && tail[8] == '0';
    }
    var y := x[1..];
    assert x == [' '] + y;
    StripLeadingSpace(x, y);
    InnerSpaceRejected(y);
  }

  /** Stripping one leading space off a text with no space at either end. */
  lemma StripLeadingSpace(x: string, y: string)
    requires x == [' '] + y && y != [] && !IsSpace(y[0]) && !IsSpace(y[|y| - 1])
    ensures Strip(x) == y
  {
    StripUnchanged(y);
    assert StripLeft(x) == StripLeft(y);
  }

  /** `float()` refuses a digit followed by a space. */
  lemma InnerSpaceRejected(y: string)
    requires |y| >= 2 && IsDigit(y[0]) && y[1] == ' '
    ensures ParseDecimal(y) == None
  {
    assert y == [y[0]] + y[1..];
    DigitPrefixOf([y[0]], y[1..]);
    assert y[1..][0] == ' ';
  }
}
