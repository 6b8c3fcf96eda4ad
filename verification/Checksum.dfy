/** The two secondary validators of `src/utils/tokenize.ts`: the Luhn sum of card numbers
    (ISO/IEC 7812-1 Annex B) and the mod-97 check of IBANs (ISO 13616, ISO/IEC 7064 MOD 97-10). */
module Checksum {
  import opened Mod97

  predicate IsDigit(c: char) { '0' <= c <= '9' }
  predicate AllDigits(s: string) { forall i | 0 <= i < |s| :: IsDigit(s[i]) }

  function Digit(c: char): (d: nat)
    requires IsDigit(c)
    ensures d <= 9
  {
    c as int - '0' as int
  }

  // ----- Luhn ------------------------------------------------------------------------------

  /** What a digit adds to the sum; every second digit from the right is doubled, the digits of
      the product added. */
  function Weigh(d: nat, doubled: bool): nat
    requires d <= 9
  {
    if !doubled then d else if 2 * d > 9 then 2 * d - 9 else 2 * d
  }

  function Doubled(s: string, i: nat): bool {
    (|s| - 1 - i) % 2 == 1
  }

  /** The weighted sum of the digits from position `i` on. */
  function LuhnFrom(s: string, i: nat): nat
    requires AllDigits(s) && i <= |s|
    decreases |s| - i
  {
    if i == |s| then 0 else Weigh(Digit(s[i]), Doubled(s, i)) + LuhnFrom(s, i + 1)
  }

  predicate LuhnValid(s: string) {
    AllDigits(s) && LuhnFrom(s, 0) % 10 == 0
  }

  /** The sum from the right, two digits at a time: the last digit as it is, the one before it doubled, a
      product above nine lowered by nine. */
  lemma {:induction false} LuhnFromRight(s: string, a: char, b: char, i: nat)
    requires AllDigits(s) && IsDigit(a) && IsDigit(b) && i <= |s|
    ensures AllDigits(s + [a, b])
    ensures LuhnFrom(s + [a, b], i)
         == LuhnFrom(s, i) + Digit(b) + (if 2 * Digit(a) > 9 then 2 * Digit(a) - 9 else 2 * Digit(a))
    decreases |s| - i
  {
    var t := s + [a, b];
    if i == |s| {
      assert LuhnFrom(t, i + 2) == 0;
      assert LuhnFrom(t, i + 1) == Digit(b);
    } else {
      LuhnFromRight(s, a, b, i + 1);
      assert t[i] == s[i] && Doubled(t, i) == Doubled(s, i);
    }
  }

  /** With the empty text and single digits that determines every sum. */
  lemma LuhnShort(s: string)
    requires AllDigits(s) && |s| <= 1
    ensures LuhnFrom(s, 0) == if s == "" then 0 else Digit(s[0])
  {
    if s != "" { assert LuhnFrom(s, 1) == 0; }
  }

  datatype Num = NaN | Num(n: int)

  /** `luhnCheck`: a character that is no digit turns the sum into NaN. */
  method LuhnCheck(digits: string) returns (valid: bool)
    ensures valid == LuhnValid(digits)
    ensures valid <==> AllDigits(digits) && LuhnFrom(digits, 0) % 10 == 0
  {
    var sum := Num(0);
    var alternate := false;
    var i := |digits| - 1;
    while i >= 0
      invariant -1 <= i < |digits|
      invariant sum == NaN <==> exists k | i < k < |digits| :: !IsDigit(digits[k])
      invariant alternate == ((|digits| - 1 - i) % 2 == 1)
      invariant AllDigits(digits) && sum.Num? ==> sum.n == LuhnFrom(digits, i + 1)
    {
      if IsDigit(digits[i]) {
        var n := Digit(digits[i]);
        if alternate {
          n := n * 2;
          if n > 9 { n := n - 9; }
        }
        if sum.Num? { sum := Num(sum.n + n); }
      } else {
        sum := NaN;
      }
      alternate := !alternate;
      i := i - 1;
    }
    valid := sum.Num? && sum.n % 10 == 0;
  }

  /** Two digit strings that agree before `j` differ in their sums as their ends do. */
  lemma {:induction false} LuhnHead(s: string, t: string, i: nat, j: nat)
    requires AllDigits(s) && AllDigits(t) && |s| == |t| && i <= j <= |s|
    requires forall k | i <= k < j :: s[k] == t[k]
    ensures LuhnFrom(s, i) - LuhnFrom(t, i) == LuhnFrom(s, j) - LuhnFrom(t, j)
    decreases j - i
  {
    if i == j {
    } else {
      LuhnHead(s, t, i + 1, j);
    }
  }

  lemma {:induction false} LuhnTail(s: string, t: string, i: nat)
    requires AllDigits(s) && AllDigits(t) && |s| == |t| && i <= |s|
    requires forall k | i <= k < |s| :: s[k] == t[k]
    ensures LuhnFrom(s, i) == LuhnFrom(t, i)
    decreases |s| - i
  {
    if i == |s| {
    } else {
      LuhnTail(s, t, i + 1);
    }
  }

  lemma WeighInjective(d: nat, e: nat, doubled: bool)
    requires d <= 9 && e <= 9
    ensures (Weigh(d, doubled) - Weigh(e, doubled)) % 10 == 0 <==> d == e
  {
  }

  lemma SwapGap(d: nat, e: nat, doubled: bool)
    requires d <= 9 && e <= 9
    ensures (Weigh(d, doubled) + Weigh(e, !doubled) - (Weigh(e, doubled) + Weigh(d, !doubled))) % 10 == 0
        <==> d == e || (d == 0 && e == 9) || (d == 9 && e == 0)
  {
  }

  lemma TensAgree(x: nat, y: nat, d: int)
    requires x % 10 == 0 && x - y == d
    ensures y % 10 == 0 <==> d % 10 == 0
  {
  }

  lemma LuhnTwo(s: string, j: nat)
    requires AllDigits(s) && j + 1 < |s|
    ensures LuhnFrom(s, j)
         == Weigh(Digit(s[j]), Doubled(s, j)) + Weigh(Digit(s[j + 1]), !Doubled(s, j)) + LuhnFrom(s, j + 2)
  {
    assert LuhnFrom(s, j + 1) == Weigh(Digit(s[j + 1]), Doubled(s, j + 1)) + LuhnFrom(s, j + 2);
  }

  /** Luhn detects every change of one digit. */
  lemma LuhnDetectsChange(s: string, j: nat, y: char)
    requires LuhnValid(s) && j < |s| && s[j] != y
    ensures !LuhnValid(s[j := y])
  {
    var t := s[j := y];
    assert t[j] == y;
    if AllDigits(t) {
      LuhnHead(s, t, 0, j);
      LuhnTail(s, t, j + 1);
      WeighInjective(Digit(s[j]), Digit(y), Doubled(s, j));
      TensAgree(LuhnFrom(s, 0), LuhnFrom(t, 0), Weigh(Digit(s[j]), Doubled(s, j)) - Weigh(Digit(y), Doubled(s, j)));
    }
  }

  lemma LuhnSwapped(s: string, t: string, j: nat)
    requires AllDigits(s) && AllDigits(t) && |s| == |t| && j + 1 < |s| && t == s[j := s[j + 1]][j + 1 := s[j]]
    ensures var d, e, w := Digit(s[j]), Digit(s[j + 1]), Doubled(s, j);
            LuhnFrom(s, 0) - LuhnFrom(t, 0) == Weigh(d, w) + Weigh(e, !w) - (Weigh(e, w) + Weigh(d, !w))
  {
    LuhnHead(s, t, 0, j);
    LuhnTail(s, t, j + 2);
    LuhnTwo(s, j);
    LuhnTwo(t, j);
  }

  /** Swapping two neighbours goes unnoticed exactly when they are equal or are 0 and 9. */
  lemma LuhnDetectsSwap(s: string, j: nat)
    requires LuhnValid(s) && j + 1 < |s|
    ensures var (x, y) := (s[j], s[j + 1]);
            LuhnValid(s[j := y][j + 1 := x]) <==> x == y || (x == '0' && y == '9') || (x == '9' && y == '0')
  {
    var t := s[j := s[j + 1]][j + 1 := s[j]];
    var d, e, w := Digit(s[j]), Digit(s[j + 1]), Doubled(s, j);
    LuhnSwapped(s, t, j);
    SwapGap(d, e, w);
    TensAgree(LuhnFrom(s, 0), LuhnFrom(t, 0), Weigh(d, w) + Weigh(e, !w) - (Weigh(e, w) + Weigh(d, !w)));
  }

  // ----- IBAN ------------------------------------------------------------------------------

  predicate IsUpper(c: char) { 'A' <= c <= 'Z' }
  predicate IsLower(c: char) { 'a' <= c <= 'z' }

  /** Digits and upper-case letters. */
  predicate IsShown(c: char) { IsDigit(c) || IsUpper(c) }
  predicate Shown(s: string) { forall i | 0 <= i < |s| :: IsShown(s[i]) }

  /** What the IBAN pattern lets through: ASCII letters and digits. */
  predicate Alphanumeric(s: string) { forall i | 0 <= i < |s| :: IsShown(s[i]) || IsLower(s[i]) }

  function Upper(c: char): (u: char)
    requires IsShown(c) || IsLower(c)
    ensures IsShown(u)
    ensures if IsLower(c) then u as int - 'A' as int == c as int - 'a' as int else u == c
  {
    if IsLower(c) then (c as int - 32) as char else c
  }

  function ToUpper(s: string): (t: string)
    requires Alphanumeric(s)
    ensures Shown(t) && |t| == |s|
  {
    seq(|s|, i requires 0 <= i < |s| => Upper(s[i]))
  }

  function DigitChar(d: nat): (c: char)
    requires d <= 9
    ensures IsDigit(c) && Digit(c) == d
  {
    (d + '0' as int) as char
  }

  /** The numeral for one character: a digit stays, A is 10 and Z is 35. */
  function Numeral(c: char): (t: string)
    requires IsShown(c)
    ensures AllDigits(t)
  {
    if IsUpper(c) then [DigitChar((c as int - 55) / 10), DigitChar((c as int - 55) % 10)] else [c]
  }

  function Code(c: char): nat
    requires IsShown(c)
  {
    if IsUpper(c) then c as int - 55 else Digit(c)
  }

  /** The number `v` followed by the numeral for `c`. */
  function Followed(v: nat, c: char): nat
    requires IsShown(c)
  {
    if IsUpper(c) then 100 * v + Code(c) else 10 * v + Code(c)
  }

  /** The number that the first `n` characters stand for, a letter counting as two digits. */
  function Value(s: string, n: nat): nat
    requires Shown(s) && n <= |s|
  {
    if n == 0 then 0
    else Followed(Value(s, n - 1), s[n - 1])
  }

  function Rearranged(raw: string): (t: string)
    requires Alphanumeric(raw)
    ensures Shown(t) && |t| == |raw|
  {
    var cut := if |raw| < 4 then |raw| else 4;
    ToUpper(raw[cut..] + raw[..cut])
  }

  /** The rearranged text, read as a number, is 1 modulo 97. */
  predicate IbanValid(raw: string)
    requires Alphanumeric(raw)
  {
    Value(Rearranged(raw), |raw|) % 97 == 1
  }

  /** `ibanCheck`: the text is turned into digits, whose remainder is then streamed. */
  method IbanCheck(raw: string) returns (valid: bool)
    requires Alphanumeric(raw)
    ensures valid == IbanValid(raw)
    ensures |raw| >= 4 ==> (valid <==> Value(ToUpper(raw[4..] + raw[..4]), |raw|) % 97 == 1)
  {
    var rearranged := Rearranged(raw);
    var numeric := "";
    for i := 0 to |rearranged|
      invariant AllDigits(numeric) && Value(numeric, |numeric|) == Value(rearranged, i)
    {
      NumeralAppends(numeric, rearranged[i]);
      numeric := numeric + Numeral(rearranged[i]);
    }
    var remainder := Remainder(numeric);
    valid := remainder == 1;
  }

  method Remainder(numeric: string) returns (remainder: nat)
    requires AllDigits(numeric)
    ensures remainder == Value(numeric, |numeric|) % 97
  {
    remainder := 0;
    for i := 0 to |numeric|
      invariant remainder == Value(numeric, i) % 97
    {
      Streaming(Value(numeric, i), Digit(numeric[i]));
      remainder := (remainder * 10 + Digit(numeric[i])) % 97;
    }
  }

  /** The number for a text, character by character: digits append one digit, A to Z append 10 to 35. */
  lemma ValueAppends(s: string, c: char)
    requires Shown(s) && IsShown(c)
    ensures Value("", 0) == 0
    ensures Value(s + [c], |s| + 1)
         == if IsDigit(c) then 10 * Value(s, |s|) + (c as int - '0' as int)
            else 100 * Value(s, |s|) + 10 + (c as int - 'A' as int)
  {
    SameHead(s, s + [c], |s|);
  }

  lemma NumeralAppends(s: string, c: char)
    requires AllDigits(s) && IsShown(c)
    ensures AllDigits(s + Numeral(c))
    ensures Value(s + Numeral(c), |s + Numeral(c)|) == Followed(Value(s, |s|), c)
  {
    var t := s + Numeral(c);
    SameHead(s, t, |s|);
  }

  lemma {:induction false} SameHead(s: string, t: string, n: nat)
    requires Shown(s) && Shown(t) && n <= |s| && n <= |t| && forall k | 0 <= k < n :: s[k] == t[k]
    ensures Value(s, n) == Value(t, n)
  {
    if n == 0 {
    } else {
      SameHead(s, t, n - 1);
    }
  }

  lemma SameStep(v: nat, u: nat, x: nat, y: nat, c: char)
    requires IsShown(c) && v == Followed(x, c) && u == Followed(y, c)
    ensures Multiple(v - u) <==> Multiple(x - y)
  {
    TenIsInvertible(x - y);
    assert v - u == if IsUpper(c) then 100 * (x - y) else 10 * (x - y);
  }

  /** Texts that agree from `j` on are equal modulo 97 exactly when their parts before `j` are. */
  lemma {:induction false} SameTail(s: string, t: string, j: nat, n: nat)
    requires Shown(s) && Shown(t) && |s| == |t| && j <= n <= |s|
    requires forall k | j <= k < n :: s[k] == t[k]
    ensures Multiple(Value(s, n) - Value(t, n)) <==> Multiple(Value(s, j) - Value(t, j))
  {
    if j == n {
    } else {
      SameTail(s, t, j, n - 1);
      SameStep(Value(s, n), Value(t, n), Value(s, n - 1), Value(t, n - 1), s[n - 1]);
    }
  }

  lemma TailShows(s: string, t: string, j: nat)
    requires Shown(s) && Shown(t) && |s| == |t| && j <= |s|
    requires forall k | j <= k < |s| :: s[k] == t[k]
    ensures Value(s, |s|) % 97 == Value(t, |s|) % 97 <==> Multiple(Value(s, j) - Value(t, j))
  {
    SameTail(s, t, j, |s|);
    SameResidue(Value(s, |s|), Value(t, |s|));
  }

  lemma OneShows(s: string, t: string, j: nat)
    requires Shown(s) && Shown(t) && j < |s| && j < |t| && IsDigit(s[j]) == IsDigit(t[j])
    requires forall k | 0 <= k < j :: s[k] == t[k]
    ensures Multiple(Value(s, j + 1) - Value(t, j + 1)) <==> s[j] == t[j]
  {
    SameHead(s, t, j);
    SmallGap(Code(s[j]) - Code(t[j]));
    assert Value(s, j + 1) - Value(t, j + 1) == Code(s[j]) - Code(t[j]);
  }

  /** One character replaced by another of the same class changes the remainder. */
  lemma ChangeShows(s: string, j: nat, y: char)
    requires Shown(s) && j < |s| && IsShown(y) && IsDigit(s[j]) == IsDigit(y) && s[j] != y
    ensures Shown(s[j := y]) && Value(s, |s|) % 97 != Value(s[j := y], |s|) % 97
  {
    var t := s[j := y];
    OneShows(s, t, j);
    TailShows(s, t, j + 1);
  }

  lemma PairShows(s: string, t: string, j: nat)
    requires Shown(s) && Shown(t) && j + 1 < |s| && j + 1 < |t| && s[j] == t[j + 1] && s[j + 1] == t[j]
    requires forall k | 0 <= k < j :: s[k] == t[k]
    ensures Multiple(Value(s, j + 2) - Value(t, j + 2)) <==> s[j] == t[j] || Blind(s[j], t[j]) || Blind(t[j], s[j])
  {
    SwappedGap(s, t, j);
    PairGap(s[j], s[j + 1]);
  }

  /** Swapping two neighbours goes unnoticed exactly when they are equal or are one of the pairs
      B and 1, M and 2, X and 3; so every swap of two unequal digits changes the remainder. */
  lemma SwapShows(s: string, j: nat)
    requires Shown(s) && j + 1 < |s|
    ensures var (x, y) := (s[j], s[j + 1]);
            var t := s[j := y][j + 1 := x];
            Shown(t) && (Value(s, |s|) % 97 == Value(t, |s|) % 97 <==> x == y || Blind(x, y) || Blind(y, x))
  {
    var x, y := s[j], s[j + 1];
    var t := s[j := y][j + 1 := x];
    PairShows(s, t, j);
    TailShows(s, t, j + 2);
  }

  predicate Blind(x: char, y: char) {
    (x == 'B' && y == '1') || (x == 'M' && y == '2') || (x == 'X' && y == '3')
  }

  /** The number for `x` followed by `y`. */
  function Pair(x: char, y: char): int
    requires IsShown(x) && IsShown(y)
  {
    Followed(Code(x), y)
  }

  lemma SwappedGap(s: string, t: string, j: nat)
    requires Shown(s) && Shown(t) && j + 1 < |s| && j + 1 < |t| && s[j] == t[j + 1] && s[j + 1] == t[j]
    requires forall k | 0 <= k < j :: s[k] == t[k]
    ensures Value(s, j + 2) - Value(t, j + 2) == Pair(s[j], s[j + 1]) - Pair(s[j + 1], s[j])
  {
    SameHead(s, t, j);
    assert Value(s, j + 2) == Followed(Followed(Value(s, j), s[j]), s[j + 1]);
    assert Value(t, j + 2) == Followed(Followed(Value(s, j), s[j + 1]), s[j]);
  }

  lemma PairGap(x: char, y: char)
    requires IsShown(x) && IsShown(y)
    ensures Multiple(Pair(x, y) - Pair(y, x)) <==> x == y || Blind(x, y) || Blind(y, x)
  {
    var a: int, b: int := Code(x), Code(y);
    if IsUpper(x) && IsUpper(y) {
      LettersGap(a, b);
    } else if IsUpper(x) {
      NineTimes(a - 11 * b);
    } else if IsUpper(y) {
      NineTimes(11 * a - b);
    } else {
      SmallGap(9 * (a - b));
    }
  }

  // ----- From the raw IBAN to the rearranged text ---------------------------------------------

  /** Where position `i` of an IBAN of length `n` goes. */
  function Moved(n: nat, i: nat): (j: nat)
    requires i < n
    ensures j < n
  {
    var cut := if n < 4 then n else 4;
    if i < cut then n - cut + i else i - cut
  }

  lemma RearrangedChange(raw: string, i: nat, y: char)
    requires Alphanumeric(raw) && i < |raw| && (IsShown(y) || IsLower(y))
    ensures Alphanumeric(raw[i := y])
    ensures Rearranged(raw)[Moved(|raw|, i)] == Upper(raw[i])
    ensures Rearranged(raw[i := y]) == Rearranged(raw)[Moved(|raw|, i) := Upper(y)]
  {
    var n, t := |raw|, raw[i := y];
    var cut := if n < 4 then n else 4;
    assert forall k | 0 <= k < n :: (t[cut..] + t[..cut])[k] == (if k < n - cut then t[k + cut] else t[k - (n - cut)]);
  }

  /** An IBAN with one letter replaced by a different letter, or one digit by a different digit,
      is rejected; upper and lower case count as one letter. */
  lemma IbanDetectsChange(raw: string, i: nat, y: char)
    requires Alphanumeric(raw) && IbanValid(raw) && i < |raw| && (IsShown(y) || IsLower(y))
    requires IsDigit(raw[i]) == IsDigit(y) && Upper(raw[i]) != Upper(y)
    ensures Alphanumeric(raw[i := y]) && !IbanValid(raw[i := y])
  {
    RearrangedChange(raw, i, y);
    ChangeShows(Rearranged(raw), Moved(|raw|, i), Upper(y));
  }

  lemma RearrangedSwap(raw: string, i: nat)
    requires Alphanumeric(raw) && i + 1 < |raw|
    ensures var t, s := raw[i := raw[i + 1]][i + 1 := raw[i]], Rearranged(raw);
            var j, k := Moved(|raw|, i), Moved(|raw|, i + 1);
            && Alphanumeric(t) && s[j] == Upper(raw[i]) && s[k] == Upper(raw[i + 1])
            && Rearranged(t) == s[j := s[k]][k := s[j]]
  {
    RearrangedChange(raw, i, raw[i + 1]);
    RearrangedChange(raw, i + 1, raw[i]);
    RearrangedChange(raw[i := raw[i + 1]], i + 1, raw[i]);
  }

  /** Swapping two neighbours of a valid IBAN, other than the fourth and fifth character (which end
      up far apart), goes unnoticed exactly for equal characters and the blind pairs. */
  lemma IbanInnerSwap(raw: string, i: nat)
    requires Alphanumeric(raw) && IbanValid(raw) && i + 1 < |raw| && i != 3
    ensures var t := raw[i := raw[i + 1]][i + 1 := raw[i]];
            var (x, y) := (Upper(raw[i]), Upper(raw[i + 1]));
            Alphanumeric(t) && (IbanValid(t) <==> x == y || Blind(x, y) || Blind(y, x))
  {
    var s, j := Rearranged(raw), Moved(|raw|, i);
    RearrangedSwap(raw, i);
    assert Moved(|raw|, i + 1) == j + 1;
    SwapShows(s, j);
  }

  // ----- The fourth and fifth character, which end up far apart -----------------------------------

  /** How many digits the characters from `i` up to, not including, `n` stand for. */
  function Width(s: string, i: nat, n: nat): nat
    requires i <= n <= |s|
  {
    if n == i then 0 else Width(s, i, n - 1) + (if IsUpper(s[n - 1]) then 2 else 1)
  }

  lemma {:induction false} WidthBounds(s: string, i: nat, n: nat)
    requires i <= n <= |s|
    ensures n - i <= Width(s, i, n) <= 2 * (n - i)
  {
    if i == n {
    } else {
      WidthBounds(s, i, n - 1);
    }
  }

  lemma {:induction false} WidthSame(s: string, t: string, i: nat, n: nat)
    requires i <= n <= |s| == |t| && forall k | i <= k < n :: s[k] == t[k]
    ensures Width(s, i, n) == Width(t, i, n)
  {
    if i == n {
    } else {
      WidthSame(s, t, i, n - 1);
    }
  }

  lemma GapStep(x: nat, y: nat, c: char, d: int, p: int)
    requires IsShown(c) && x - y == d * p
    ensures Followed(x, c) - Followed(y, c) == d * ((if IsUpper(c) then 100 else 10) * p)
  {
    ScaleStep(d, p, 10);
    ScaleStep(d, p, 100);
  }

  lemma WidthPower(s: string, n: nat)
    requires 1 < n <= |s|
    ensures Pow10(Width(s, 1, n)) == (if IsUpper(s[n - 1]) then 100 else 10) * Pow10(Width(s, 1, n - 1))
  {
    var w := Width(s, 1, n - 1);
    assert Pow10(w + 2) == 10 * Pow10(w + 1);
  }

  /** Texts that differ in their first digit only differ by that much at its place. */
  lemma {:induction false} HeadGap(s: string, t: string, n: nat)
    requires Shown(s) && Shown(t) && 1 <= n <= |s| == |t| && IsDigit(s[0]) && IsDigit(t[0])
    requires forall k | 1 <= k < n :: s[k] == t[k]
    ensures Value(s, n) - Value(t, n) == (Digit(s[0]) - Digit(t[0])) * Pow10(Width(s, 1, n))
  {
    var d := Digit(s[0]) - Digit(t[0]);
    if n == 1 {
      assert Value(s, 0) == 0 == Value(t, 0);
    } else {
      HeadGap(s, t, n - 1);
      var p := Pow10(Width(s, 1, n - 1));
      WidthPower(s, n);
      GapStep(Value(s, n - 1), Value(t, n - 1), s[n - 1], d, p);
    }
  }

  lemma LastDigit(s: string)
    requires Shown(s) && s != [] && IsDigit(s[|s| - 1])
    ensures Value(s, |s|) == 10 * Value(s, |s| - 1) + Digit(s[|s| - 1])
  {
  }

  /** Swapping the first and the last digit. */
  lemma EndsFarApart(s: string, t: string)
    requires Shown(s) && 2 <= |s| <= 34 && IsDigit(s[0]) && IsDigit(s[|s| - 1]) && s[0] != s[|s| - 1]
    requires Shown(t) && |t| == |s| && t[0] == s[|s| - 1] && t[|s| - 1] == s[0]
    requires forall k | 1 <= k < |s| - 1 :: t[k] == s[k]
    ensures !Multiple(Value(s, |s|) - Value(t, |s|))
  {
    var n := |s| - 1;
    HeadGap(s, t, n);
    LastDigit(s);
    LastDigit(t);
    WidthBounds(s, 1, n);
    EndsApart(Value(s, |s|), Value(t, |s|), Value(s, n), Value(t, n), Digit(s[0]), Digit(s[n]), Width(s, 1, n));
  }

  /** Swapping unequal digits in fourth and fifth place is detected, too, up to the 34 characters that the
      validator accepts. */
  lemma IbanDetectsFarSwap(raw: string)
    requires Alphanumeric(raw) && IbanValid(raw) && 5 <= |raw| <= 34
    requires IsDigit(raw[3]) && IsDigit(raw[4]) && raw[3] != raw[4]
    ensures var t := raw[3 := raw[4]][4 := raw[3]]; Alphanumeric(t) && !IbanValid(t)
  {
    var s := Rearranged(raw);
    RearrangedSwap(raw, 3);
    var t := s[|s| - 1 := s[0]][0 := s[|s| - 1]];
    EndsFarApart(s, t);
    SameResidue(Value(s, |s|), Value(t, |s|));
  }

  /** Every swap of two unequal neighbouring digits of a valid IBAN is detected. */
  lemma IbanDetectsDigitSwap(raw: string, i: nat)
    requires Alphanumeric(raw) && IbanValid(raw) && |raw| <= 34 && i + 1 < |raw|
    requires IsDigit(raw[i]) && IsDigit(raw[i + 1]) && raw[i] != raw[i + 1]
    ensures var t := raw[i := raw[i + 1]][i + 1 := raw[i]]; Alphanumeric(t) && !IbanValid(t)
  {
    if i == 3 { IbanDetectsFarSwap(raw); } else { IbanInnerSwap(raw, i); }
  }

  /** What the pattern and the length check let through, spaces removed: two letters, two digits, and 11 to 30
      letters or digits. */
  predicate IbanShaped(raw: string) {
    && 15 <= |raw| <= 34 && Alphanumeric(raw)
    && !IsDigit(raw[0]) && !IsDigit(raw[1]) && IsDigit(raw[2]) && IsDigit(raw[3])
  }

  predicate IbanAccepted(raw: string) { IbanShaped(raw) && IbanValid(raw) }

  lemma DigitsStay(raw: string, i: nat)
    requires IbanShaped(raw) && i + 1 < |raw|
    ensures var t := raw[i := raw[i + 1]][i + 1 := raw[i]];
            IbanShaped(t) <==> ((i == 1 || i == 3) ==> IsDigit(raw[i]) == IsDigit(raw[i + 1]))
  {
    RearrangedSwap(raw, i);
  }

  lemma LastTwoDigits(s: string, t: string)
    requires Shown(s) && Shown(t) && |s| == |t| >= 2 && forall k | 0 <= k < |s| - 2 :: s[k] == t[k]
    requires IsDigit(s[|s| - 2]) && IsDigit(s[|s| - 1]) && t[|s| - 2] == '0' && t[|s| - 1] == '0'
    ensures Value(s, |s|) == Value(t, |s|) + (10 * Digit(s[|s| - 2]) + Digit(s[|s| - 1]))
  {
    var n := |s|;
    SameHead(s, t, n - 2);
    assert Value(s, n - 1) == 10 * Value(s, n - 2) + Digit(s[n - 2]);
    assert Value(t, n - 1) == 10 * Value(t, n - 2);
  }

  /** How check digits are issued: an IBAN is valid exactly when its two check digits make up, modulo 97, for
      what the text with check digits zero lacks to one. */
  lemma IbanCheckDigits(raw: string)
    requires IbanShaped(raw)
    ensures var blank := raw[2 := '0'][3 := '0'];
            var missing := 98 - Value(ToUpper(blank[4..] + blank[..4]), |raw|) % 97;
            IbanShaped(blank) && (IbanValid(raw) <==> (10 * Digit(raw[2]) + Digit(raw[3])) % 97 == missing % 97)
  {
    var blank, n := raw[2 := '0'][3 := '0'], |raw|;
    var s, t := Rearranged(raw), Rearranged(blank);
    assert raw[4..] == blank[4..] && raw[..2] == blank[..2];
    assert forall k | 0 <= k < n - 2 :: s[k] == t[k];
    assert s[n - 2] == raw[2] && s[n - 1] == raw[3] && t[n - 2] == '0' && t[n - 1] == '0';
    LastTwoDigits(s, t);
    CheckDigitsFit(Value(t, n), 10 * Digit(raw[2]) + Digit(raw[3]));
  }

  /** Swapping two neighbours of an accepted text goes unnoticed exactly when they are equal up to case, or
      are one of the blind pairs behind the check digits. */
  lemma IbanDetectsSwap(raw: string, i: nat)
    requires IbanAccepted(raw) && i + 1 < |raw|
    ensures var t := raw[i := raw[i + 1]][i + 1 := raw[i]];
            var (x, y) := (Upper(raw[i]), Upper(raw[i + 1]));
            IbanAccepted(t) <==> x == y || (i >= 4 && (Blind(x, y) || Blind(y, x)))
  {
    DigitsStay(raw, i);
    if i != 3 {
      IbanInnerSwap(raw, i);
    } else if IsDigit(raw[4]) && raw[3] != raw[4] {
      IbanDetectsFarSwap(raw);
    } else if raw[3] == raw[4] {
      assert raw[3 := raw[4]][4 := raw[3]] == raw;
    }
  }
}
