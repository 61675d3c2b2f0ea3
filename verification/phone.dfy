/** Phone-number normalisation: `parse_phone_number` and `validate_phone_number`
    of backend/app/utils/utils.py, and the older copy of `parse_phone_number`
    kept in backend/app/utils.py. */
module Phone {
  import opened Wrappers
  import opened Text

  /** The indian country code a 12-digit number may start with. */
  const COUNTRY_CODE: string := "91"

  /** Message of the `ValueError` raised for an unparseable number. */
  const NULL_PHONE: string := "Phone number cannot be null"

  /** `re.sub(r'\D', '', phone)`: the digits of `phone`, in order. */
  function Digits(s: string): (r: string)
    ensures AllDigits(r) && |r| <= |s|
    decreases |s|
  {
    if s == [] then []
    else Digits(s[..|s| - 1]) + (if IsDigit(s[|s| - 1]) then [s[|s| - 1]] else [])
  }

  /** Stripping is idempotent: a string of digits is its own digit sequence. */
  lemma {:induction false} DigitsOfDigits(s: string)
    requires AllDigits(s)
    ensures Digits(s) == s
    decreases |s|
  {
    if s != [] {
      DigitsOfDigits(s[..|s| - 1]);
    }
  }

  /** Non-digits are discarded wherever they stand: stripping distributes over concatenation. */
  lemma {:induction false} DigitsAppend(a: string, b: string)
    ensures Digits(a + b) == Digits(a) + Digits(b)
    decreases |b|
  {
    if b == [] {
      assert a + b == a;
    } else {
      var b' := b[..|b| - 1];
      assert (a + b)[..|a + b| - 1] == a + b';
      assert (a + b)[|a + b| - 1] == b[|b| - 1];
      DigitsAppend(a, b');
    }
  }

  /** `parse_phone_number`: ten digits are kept as they are, twelve digits
      that start with the country code lose it, anything else is `None`. */
  function ParsePhone(phone: string): (r: Option<string>)
    ensures r.Some? ==> |r.value| == 10 && AllDigits(r.value)
  {
    var cleaned := Digits(phone);
    if |cleaned| == 10 then Some(cleaned)
    else if |cleaned| == 12 && cleaned[..2] == COUNTRY_CODE then Some(cleaned[2..])
    else None
  }

  /** The result depends only on the digit subsequence of the input. */
  lemma ParseOnlyDigitsMatter(phone: string)
    ensures ParsePhone(phone) == ParsePhone(Digits(phone))
  {
    DigitsOfDigits(Digits(phone));
  }

  /** Inverse direction: a parsed number, with or without the country code put
      back in front, is exactly the digit sequence of the input. */
  lemma ParseRecoversDigits(phone: string)
    requires ParsePhone(phone).Some?
    ensures var d := ParsePhone(phone).value;
      Digits(phone) == d || Digits(phone) == COUNTRY_CODE + d
  {
    var c := Digits(phone);
    if |c| != 10 {
      assert c == c[..2] + c[2..];
    }
  }

  /** Ten digits, framed by any non-digit punctuation, come back unchanged. */
  lemma ParseTenDigits(d: string, before: string, after: string)
    requires |d| == 10 && AllDigits(d)
    requires Digits(before) == [] && Digits(after) == []
    ensures ParsePhone(before + d + after) == Some(d)
  {
    DigitsAppend(before + d, after);
    DigitsAppend(before, d);
    DigitsOfDigits(d);
    assert Digits(before + d + after) == d;
  }

  /** The country code followed by ten digits yields those ten digits. */
  lemma ParseCountryCode(d: string)
    requires |d| == 10 && AllDigits(d)
    ensures ParsePhone(COUNTRY_CODE + d) == Some(d)
  {
    var s := COUNTRY_CODE + d;
    assert AllDigits(s) by {
      forall i | 0 <= i < |s| ensures IsDigit(s[i]) {
        if i >= 2 { assert s[i] == d[i - 2]; }
      }
    }
    DigitsOfDigits(s);
    assert s[..2] == COUNTRY_CODE && s[2..] == d;
  }

  /** Any other digit count, and twelve digits without the country code, are rejected. */
  lemma ParseRejects(phone: string)
    requires var n := |Digits(phone)|;
      n != 10 && (n != 12 || Digits(phone)[..2] != COUNTRY_CODE)
    ensures ParsePhone(phone) == None
  {
  }

  /** Normalising an already normalised number changes nothing. */
  lemma ParseIdempotent(phone: string)
    requires ParsePhone(phone).Some?
    ensures ParsePhone(ParsePhone(phone).value) == ParsePhone(phone)
  {
    DigitsOfDigits(ParsePhone(phone).value);
  }

  /** `validate_phone_number`: the normalised number, or the `ValueError` text. */
  function ValidatePhone(phone: string): (r: Result<string, string>)
    ensures r.Failure? <==> ParsePhone(phone) == None
    ensures r.Failure? ==> r.error == NULL_PHONE
    ensures r.Success? ==> Some(r.value) == ParsePhone(phone)
  {
    match ParsePhone(phone)
    case None => Failure(NULL_PHONE)
    case Some(p) => Success(p)
  }

  /** The older, identical copy of `parse_phone_number` (the same `re.sub` and
      branches), modelled here as a character-by-character scan; it returns the
      same answer as `ParsePhone` on every input. */
  method ParsePhoneLegacy(phone: string) returns (r: Option<string>)
    ensures r == ParsePhone(phone)
    ensures r.Some? ==> |r.value| == 10 && AllDigits(r.value)
  {
    var cleaned := "";
    var i := 0;
    while i < |phone|
      invariant 0 <= i <= |phone|
      invariant cleaned == Digits(phone[..i])
    {
      assert phone[..i + 1][..i] == phone[..i];
      if IsDigit(phone[i]) {
        cleaned := cleaned + [phone[i]];
      }
      i := i + 1;
    }
    assert phone[..i] == phone;
    if |cleaned| == 10 {
      r := Some(cleaned);
    } else if |cleaned| == 12 && cleaned[..2] == "91" {
      r := Some(cleaned[2..]);
    } else {
      r := None;
    }
  }
}
