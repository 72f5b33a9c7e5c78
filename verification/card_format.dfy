/** The input formatters of the add-card form and the masked card number shown
    once a card is added: the card number is regrouped in blocks of four
    digits, the expiry date gets a slash after the month, the CVV keeps only
    digits. */
module CardFormat {
  import opened Util

  /** What the regular-expression class `\d` matches: the ASCII digits only. */
  predicate IsDigit(c: char)
  {
    '0' <= c <= '9'
  }

  predicate AllDigits(s: string)
  {
    forall i :: 0 <= i < |s| ==> IsDigit(s[i])
  }

  /** `value.replace(/\D/g, '')`: the digits of `s`, in order, each as often
      as it occurs; a string of digits is left as it is. */
  function Digits(s: string): (r: string)
    ensures AllDigits(r)
    ensures IsSubsequence(r, s)
    ensures forall c {:trigger multiset(r)[c]} :: multiset(r)[c] == if IsDigit(c) then multiset(s)[c] else 0
    ensures |r| == |s| <==> AllDigits(s)
    ensures AllDigits(s) ==> r == s
  {
    KeepCount(s, IsDigit);
    Keep(s, IsDigit)
  }

  lemma DigitsAppend(a: string, b: string)
    ensures Digits(a + b) == Digits(a) + Digits(b)
  {
    KeepAppend(a, b, IsDigit);
  }

  // ---------------------------------------------------------------------------
  // Card number

  /** Length of `n` digits grouped in fours: one space between blocks. */
  function GroupedLength(n: nat): nat
  {
    if n == 0 then 0 else n + (n - 1) / 4
  }

  /** Pointwise description of a grouped card number: digit `j` of `d` sits at
      position `j + j / 4`, and a space sits at every position `p` with
      `p % 5 == 4`, which is exactly the position in front of digit `j` when
      `j > 0 && j % 4 == 0`. */
  ghost predicate IsGrouping(d: string, f: string)
  {
    && |f| == GroupedLength(|d|)
    && (forall j :: 0 <= j < |d| ==> f[j + j / 4] == d[j])
    && (forall p :: 0 <= p < |f| && p % 5 == 4 ==> f[p] == ' ')
  }

  /** Reference definition: the first block of four, a space, the rest grouped. */
  function Grouped(d: string): string
    decreases |d|
  {
    if |d| <= 4 then d else d[..4] + " " + Grouped(d[4..])
  }

  lemma {:induction false} GroupedIsGrouping(d: string)
    ensures IsGrouping(d, Grouped(d))
    decreases |d|
  {
    if |d| > 4 {
      var g := Grouped(d[4..]);
      var f := d[..4] + " " + g;
      GroupedIsGrouping(d[4..]);
      assert |f| == GroupedLength(|d|);
      forall j | 0 <= j < |d|
        ensures f[j + j / 4] == d[j]
      {
        if j >= 4 {
          var j' := j - 4;
          assert j' + j' / 4 == j + j / 4 - 5;
          assert g[j' + j' / 4] == d[4..][j'];
        }
      }
      forall p | 0 <= p < |f| && p % 5 == 4
        ensures f[p] == ' '
      {
        if p > 4 {
          assert (p - 5) % 5 == 4;
        }
      }
    }
  }

  /** Position `p` of a grouping that is not a separator holds digit `p - p / 5`. */
  lemma GroupingDigitAt(d: string, f: string, p: nat)
    requires IsGrouping(d, f)
    requires p < |f| && p % 5 != 4
    ensures p - p / 5 < |d|
    ensures f[p] == d[p - p / 5]
  {
    var q := p / 5;
    var j := p - q;
    assert j == 4 * q + p % 5;
    assert j / 4 == q;
    assert f[j + j / 4] == d[j];
  }

  /** The pointwise description admits exactly one string. */
  lemma GroupingUnique(d: string, f1: string, f2: string)
    requires IsGrouping(d, f1) && IsGrouping(d, f2)
    ensures f1 == f2
  {
    forall p | 0 <= p < |f1|
      ensures f1[p] == f2[p]
    {
      if p % 5 != 4 {
        GroupingDigitAt(d, f1, p);
        GroupingDigitAt(d, f2, p);
      }
    }
  }

  /** Arithmetic of one step of the formatting loop: before digit `i` the
      output has `GroupedLength(i)` characters, a separator is due exactly when
      `i` is a positive multiple of four and lands on a position `5k + 4`, and
      digit `i` itself lands on `i + i / 4`, never such a position. */
  lemma GroupStep(i: nat)
    ensures i > 0 && i % 4 == 0 ==> GroupedLength(i) + 1 == i + i / 4 && GroupedLength(i) % 5 == 4
    ensures !(i > 0 && i % 4 == 0) ==> GroupedLength(i) == i + i / 4
    ensures (i + i / 4) % 5 != 4
    ensures GroupedLength(i + 1) == i + i / 4 + 1
  {
    var k := i / 4;
    assert i == 4 * k + i % 4;
    assert i + i / 4 == 5 * k + i % 4;
    if i > 0 {
      if i % 4 == 0 {
        assert (i - 1) / 4 == k - 1;
      } else {
        assert (i - 1) / 4 == k;
      }
    }
  }

  /** The card-number input handler: drop every non-digit, then rebuild the
      value digit by digit, putting a space before every digit whose index is
      a positive multiple of four. */
  method FormatCardNumber(value: string) returns (formatted: string)
    ensures IsGrouping(Digits(value), formatted)
    ensures formatted == Grouped(Digits(value))
  {
    var d := Digits(value);
    formatted := "";
    var i := 0;
    while i < |d|
      invariant 0 <= i <= |d|
      invariant |formatted| == GroupedLength(i)
      invariant forall j :: 0 <= j < i ==> formatted[j + j / 4] == d[j]
      invariant forall p :: 0 <= p < |formatted| && p % 5 == 4 ==> formatted[p] == ' '
    {
      GroupStep(i);
      if i > 0 && i % 4 == 0 {
        formatted := formatted + " ";
      }
      assert |formatted| == i + i / 4;
      formatted := formatted + [d[i]];
      i := i + 1;
    }
    assert d[..|d|] == d;
    GroupedIsGrouping(d);
    GroupingUnique(d, formatted, Grouped(d));
  }

  /** A formatted card number holds only digits and spaces, and never starts
      or ends with a space. */
  lemma GroupedShape(d: string)
    requires AllDigits(d)
    ensures forall i :: 0 <= i < |Grouped(d)| ==> IsDigit(Grouped(d)[i]) || Grouped(d)[i] == ' '
    ensures |d| > 0 ==> |Grouped(d)| == |d| + (|d| - 1) / 4
    ensures |d| > 0 ==> IsDigit(Grouped(d)[0]) && IsDigit(Grouped(d)[|Grouped(d)| - 1])
  {
    var f := Grouped(d);
    GroupedIsGrouping(d);
    forall p | 0 <= p < |f|
      ensures IsDigit(f[p]) || f[p] == ' '
    {
      if p % 5 != 4 {
        GroupingDigitAt(d, f, p);
      }
    }
    if |d| > 0 {
      var j := |d| - 1;
      assert f[j + j / 4] == d[j];
      assert f[0 + 0 / 4] == d[0];
    }
  }

  /** Removing the spaces from a formatted card number gives back its digits. */
  lemma {:induction false} DigitsOfGrouped(d: string)
    requires AllDigits(d)
    ensures Digits(Grouped(d)) == d
    decreases |d|
  {
    if |d| > 4 {
      DigitsOfGrouped(d[4..]);
      assert Digits(d[..4]) == d[..4];
      DigitsAppend(d[..4] + " ", Grouped(d[4..]));
      DigitsAppend(d[..4], " ");
      assert Digits(" ") == [];
      assert d[..4] + d[4..] == d;
    }
  }

  /** Whatever the field held, formatting keeps exactly its digits in order,
      and formatting an already formatted number changes nothing. */
  lemma CardNumberRoundTrip(value: string)
    ensures Digits(Grouped(Digits(value))) == Digits(value)
    ensures Grouped(Digits(Grouped(Digits(value)))) == Grouped(Digits(value))
  {
    DigitsOfGrouped(Digits(value));
  }

  // ---------------------------------------------------------------------------
  // Expiry date and CVV

  /** The expiry-date input handler: the digits, with a slash after the first
      two once there are more than two. */
  function FormatExpiry(value: string): (r: string)
    ensures var d := Digits(value);
            if |d| > 2 then
              |r| == |d| + 1 && r[2] == '/' && r[..2] + r[3..] == d
            else
              r == d
  {
    var d := Digits(value);
    if |d| > 2 then d[..2] + "/" + d[2..] else d
  }

  /** The slash is the only non-digit the formatter adds, so it carries the
      same digits, and reformatting its own output changes nothing. */
  lemma ExpiryRoundTrip(value: string)
    ensures Digits(FormatExpiry(value)) == Digits(value)
    ensures FormatExpiry(FormatExpiry(value)) == FormatExpiry(value)
  {
    var d := Digits(value);
    assert Digits(d) == d;
    if |d| > 2 {
      assert Digits(d[..2]) == d[..2];
      assert Digits(d[2..]) == d[2..];
      DigitsAppend(d[..2] + "/", d[2..]);
      DigitsAppend(d[..2], "/");
      assert Digits("/") == [];
      assert d[..2] + d[2..] == d;
    }
  }

  /** The CVV input handler: only digits survive, and the value is left
      alone exactly when it already was all digits. */
  function FormatCvv(value: string): (r: string)
    ensures AllDigits(r)
    ensures IsSubsequence(r, value)
    ensures forall c {:trigger multiset(r)[c]} :: multiset(r)[c] == if IsDigit(c) then multiset(value)[c] else 0
    ensures r == value <==> AllDigits(value)
  {
    Digits(value)
  }

  lemma CvvIdempotent(value: string)
    ensures FormatCvv(FormatCvv(value)) == FormatCvv(value)
  {
  }

  // ---------------------------------------------------------------------------
  // Masked card number

  /** What `\s` matches in a JavaScript regular expression: the white space
      and line terminator characters. */
  predicate IsJsWhitespace(c: char)
  {
    var n := c as int;
    || 0x09 <= n <= 0x0D                      // tab, line feed, vertical tab, form feed, carriage return
    || n == 0x20 || n == 0xA0 || n == 0x1680  // space, no-break space, ogham space mark
    || 0x2000 <= n <= 0x200A                  // en quad .. hair space
    || n == 0x2028 || n == 0x2029             // line and paragraph separators
    || n == 0x202F || n == 0x205F || n == 0x3000
    || n == 0xFEFF                            // byte order mark
  }

  predicate NotJsWhitespace(c: char)
  {
    !IsJsWhitespace(c)
  }

  /** `replace(/\s/g, '')`: every character that is not white space, in
      order and with its multiplicity. */
  function StripWhitespace(s: string): (r: string)
    ensures forall i :: 0 <= i < |r| ==> !IsJsWhitespace(r[i])
    ensures IsSubsequence(r, s)
    ensures forall c :: multiset(r)[c] == if IsJsWhitespace(c) then 0 else multiset(s)[c]
  {
    KeepCount(s, NotJsWhitespace);
    Keep(s, NotJsWhitespace)
  }

  /** `slice(-n)`: the last `n` elements, or all of them when there are fewer.
      As in JavaScript, `slice(-0)` is `slice(0)`, the whole string. */
  function LastUpTo(s: string, n: nat): (r: string)
    ensures |r| == if n == 0 || |s| < n then |s| else n
    ensures s == s[..|s| - |r|] + r
  {
    if n == 0 || |s| < n then s else s[|s| - n..]
  }

  const MaskPrefix: string := "**** **** **** "

  /** The display number of `addNewCardToUI`. */
  function MaskCard(cardNumber: string): (r: string)
    ensures |MaskPrefix| == 15 && |r| >= 15 && r[..15] == MaskPrefix
    ensures var plain := StripWhitespace(cardNumber);
            && |r| == 15 + (if |plain| < 4 then |plain| else 4)
            && plain == plain[..|plain| - (|r| - 15)] + r[15..]
  {
    MaskPrefix + LastUpTo(StripWhitespace(cardNumber), 4)
  }

  /** Masking a number produced by the card-number formatter reveals the last
      four of the digits that were typed (all of them when there are fewer). */
  lemma MaskOfFormatted(value: string)
    ensures var d := Digits(value);
            MaskCard(Grouped(d)) == MaskPrefix + LastUpTo(d, 4)
  {
    var d := Digits(value);
    GroupedShape(d);
    DigitsOfGrouped(d);
    var f := Grouped(d);
    assert forall c :: IsDigit(c) || c == ' ' ==> (NotJsWhitespace(c) <==> IsDigit(c));
    KeepPointwiseEqual(f, NotJsWhitespace, IsDigit);
  }

  /** Two tests that agree on every element filter alike. */
  lemma {:induction false} KeepPointwiseEqual(s: string, p: char -> bool, q: char -> bool)
    requires forall i :: 0 <= i < |s| ==> p(s[i]) == q(s[i])
    ensures Keep(s, p) == Keep(s, q)
    decreases |s|
  {
    if s != [] {
      KeepPointwiseEqual(s[1..], p, q);
    }
  }
}
