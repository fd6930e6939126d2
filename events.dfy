/** Messages as the conversations endpoint returns them, the notification
    event built from each new one, and the sender classification, which
    compares the JavaScript string forms of two ids. */
module Events {

  datatype Option<+T> = None | Some(value: T)

  /** A JavaScript value used as an id: the configured account id, or a
      message's `from?.id`, which is `undefined` when `from` is absent. */
  datatype Id = Str(s: string) | Num(n: int) | Undefined | Null

  /** The character of a decimal digit. */
  function DigitChar(d: nat): (c: char)
    requires d < 10
    ensures '0' <= c <= '9'
    ensures d == (c as int) - ('0' as int)
  {
    (('0' as int) + d) as char
  }

  /** Every character is a decimal digit. */
  predicate IsDigits(s: string)
  {
    forall k :: 0 <= k < |s| ==> '0' <= s[k] <= '9'
  }

  /** A canonical decimal numeral: nonempty, digits only, no leading zero. */
  predicate Numeral(s: string)
  {
    |s| >= 1 && IsDigits(s) && (|s| > 1 ==> s[0] != '0')
  }

  /** The number a string of decimal digits denotes, most significant first. */
  function Value(s: string): nat
    requires IsDigits(s)
  {
    if |s| == 0 then 0
    else Value(s[..|s| - 1]) * 10 + ((s[|s| - 1] as int) - ('0' as int))
  }

  /** The decimal digits of a non-negative integer, most significant first,
      without leading zeros: a canonical numeral that denotes `n`. */
  function Digits(n: nat): (r: string)
    ensures Numeral(r)
    ensures (|r| == 1) == (n < 10)
    ensures Value(r) == n
  {
    if n < 10 then [DigitChar(n)]
    else
      var p := Digits(n / 10);
      var r := p + [DigitChar(n % 10)];
      assert r[..|r| - 1] == p;
      r
  }

  /** JavaScript's `String(n)` for an integral number: the numeral of `n`,
      after a minus sign when `n` is negative. */
  function Decimal(n: int): (r: string)
    ensures |r| >= 1 && (r[0] == '-' <==> n < 0)
    ensures n >= 0 ==> Numeral(r) && Value(r) == n
    ensures n < 0 ==> Numeral(r[1..]) && Value(r[1..]) == -n
  {
    if n < 0 then
      var r := "-" + Digits(-n);
      assert r[1..] == Digits(-n);
      r
    else Digits(n)
  }

  /** JavaScript's `String(v)`: a string prints as itself, a number as its
      decimal numeral, the two missing values as their names. */
  function JsString(v: Id): (r: string)
    ensures v.Str? ==> r == v.s
    ensures v.Num? && v.n >= 0 ==> Numeral(r) && Value(r) == v.n
    ensures v.Num? && v.n < 0 ==> |r| > 1 && r[0] == '-' && Numeral(r[1..]) && Value(r[1..]) == -v.n
    ensures v.Undefined? ==> r == "undefined"
    ensures v.Null? ==> r == "null"
  {
    match v
    case Str(s) => s
    case Num(n) => Decimal(n)
    case Undefined => "undefined"
    case Null => "null"
  }

  datatype Sender = Self | Client

  /** `'self'` when the two ids print the same, `'client'` otherwise. */
  function Classify(from: Id, account: Id): (r: Sender)
    ensures from == account ==> r == Self
    ensures from.Str? && account.Str? ==> (r == Self <==> from.s == account.s)
    ensures from.Undefined? && account.Null? ==> r == Client
  {
    if JsString(from) == JsString(account) then Self else Client
  }

  /** One message record of the conversations payload. `id` is the record's
      own identity, which the code passes along only inside `raw`; `text` is
      the `message` field (absent or `null` is `None`); `createdTime` is
      `created_time` already parsed to milliseconds, `None` when it does not
      parse (an invalid date compares false with everything). */
  datatype Message = Message(id: Id, fromId: Id, text: Option<string>, createdTime: Option<int>)

  /** The object every handler receives for a new message. */
  datatype Event = Event(sender: Sender, time: int, text: string, raw: Message)

  /** `message.message || ''`. */
  function TextOf(m: Message): (r: string)
    ensures m.text.Some? ==> r == m.text.value
    ensures m.text.None? ==> r == ""
  {
    match m.text
    case Some(t) => t
    case None => ""
  }

  /** The event for a message whose time has parsed. */
  function MakeEvent(m: Message, account: Id): (e: Event)
    requires m.createdTime.Some?
  {
    Event(Classify(m.fromId, account), m.createdTime.value, TextOf(m), m)
  }

  /** A canonical numeral is the decimal form of the number it denotes. */
  lemma {:induction false} DigitsOfValue(s: string)
    requires Numeral(s)
    ensures Digits(Value(s)) == s
  {
    var last := s[|s| - 1];
    if |s| > 1 {
      var p := s[..|s| - 1];
      assert Numeral(p) by {
        assert p[0] == s[0];
      }
      DigitsOfValue(p);
      ValueOfLeadingNonzero(s);
      var v, d := Value(s), (last as int) - ('0' as int);
      assert v / 10 == Value(p) && v % 10 == d by {
        assert v == Value(p) * 10 + d;
      }
      assert Digits(v) == p + [DigitChar(d)];
      assert s == p + [last];
    } else {
      assert s == [last];
      assert s[..0] == [];
    }
  }

  /** Helper: a numeral of several digits starts with a nonzero digit, so it
      denotes at least ten; a one-digit numeral other than "0" denotes at
      least one. */
  lemma {:induction false} ValueOfLeadingNonzero(s: string)
    requires IsDigits(s) && |s| >= 1 && s[0] != '0'
    ensures Value(s) >= 1
    ensures |s| > 1 ==> Value(s) >= 10
  {
    if |s| > 1 {
      var p := s[..|s| - 1];
      assert p[0] == s[0];
      ValueOfLeadingNonzero(p);
    } else {
      assert s[..0] == [];
    }
  }

  /** Printing a non-negative integer in decimal loses nothing. */
  lemma DigitsInjective(a: nat, b: nat)
    requires Digits(a) == Digits(b)
    ensures a == b
  {
    assert Value(Digits(a)) == a;
  }

  /** Printing any integer in decimal loses nothing: two integers print the
      same exactly when they are equal. */
  lemma DecimalInjective(a: int, b: int)
    ensures Decimal(a) == Decimal(b) <==> a == b
  {
    if Decimal(a) == Decimal(b) {
      if a < 0 && b < 0 {
        assert Digits(-a) == Decimal(a)[1..];
        DigitsInjective(-a, -b);
      } else if a >= 0 && b >= 0 {
        DigitsInjective(a, b);
      }
    }
  }

  /** The numeric sender id 123 matches the account id "123". */
  lemma NumericSenderMatchesStringAccount()
    ensures Classify(Num(123), Str("123")) == Self
    ensures Classify(Num(123), Str("0123")) == Client
  {
    assert Digits(1) == "1";
    assert Digits(12) == "12";
    assert Digits(123) == "123";
  }

  /** A numeric sender id matches a string account id exactly when the
      string is the numeral of the number, led by a minus sign when the
      number is negative: "123" matches 123, "0123" and "+5" match nothing. */
  lemma NumericSenderMatchesNumeral(n: int, s: string)
    ensures Classify(Num(n), Str(s)) == Self <==>
              (Numeral(s) && Value(s) == n)
              || (|s| > 1 && s[0] == '-' && Numeral(s[1..]) && Value(s[1..]) == -n && -n > 0)
  {
    assert Classify(Num(n), Str(s)) == Self <==> Decimal(n) == s;
    if n >= 0 {
      NonNegativeDecimalIs(n, s);
    } else {
      NegativeDecimalIs(n, s);
    }
  }

  /** Helper: the string form of a non-negative number is the numeral that denotes it. */
  lemma NonNegativeDecimalIs(n: nat, s: string)
    ensures Decimal(n) == s <==> Numeral(s) && Value(s) == n
  {
    if Numeral(s) && Value(s) == n {
      DigitsOfValue(s);
    }
  }

  /** Helper: the string form of a negative number is a minus sign and the
      numeral of its magnitude. */
  lemma NegativeDecimalIs(n: int, s: string)
    requires n < 0
    ensures Decimal(n) == s <==> |s| > 1 && s[0] == '-' && Numeral(s[1..]) && Value(s[1..]) == -n
  {
    if |s| > 1 && s[0] == '-' && Numeral(s[1..]) && Value(s[1..]) == -n {
      MinusNumeralIsDecimal(n, s);
    }
  }

  /** Helper: a minus sign followed by the numeral of `-n` is `String(n)`. */
  lemma MinusNumeralIsDecimal(n: int, s: string)
    requires n < 0
    requires |s| > 1 && s[0] == '-' && Numeral(s[1..]) && Value(s[1..]) == -n
    ensures Decimal(n) == s
  {
    var t := s[1..];
    DigitsOfValue(t);
    assert Decimal(n) == "-" + Digits(-n);
    assert s == "-" + t;
  }

  /** Two numeric ids match exactly when they are the same number. */
  lemma NumericIdsMatchIffEqual(a: int, b: int)
    ensures Classify(Num(a), Num(b)) == Self <==> a == b
  {
    DecimalInjective(a, b);
  }

  /** A message without a `from` field counts as `'self'` exactly when the
      account id is itself missing or is the string "undefined". */
  lemma MissingSenderMatchesOnlyUndefined(account: Id)
    ensures Classify(Undefined, account) == Self <==> account == Undefined || account == Str("undefined")
  {
    if account.Num? {
      var d := Decimal(account.n);
      assert d[0] == '-' || '0' <= d[0] <= '9';
      assert d != "undefined";
    }
  }
}
