/** `formatPhoneNumber` of netlify/functions/generate-affidavit-ps.mjs, which
    lays out the firm's telephone number taken from the claim text. Every
    non-digit is dropped; ten digits starting with `0` are written as an
    area code in brackets and two groups of four; anything else is returned
    as given. */
module Phone {
  import Text

  /** `phone.replace(/\D/g, '')`. */
  function Digits(phone: string): (d: string)
    ensures |d| <= |phone| && forall i :: 0 <= i < |d| ==> Text.IsDigit(d[i])
  {
    if |phone| == 0 then ""
    else (if Text.IsDigit(phone[0]) then [phone[0]] else "") + Digits(phone[1..])
  }

  lemma {:induction false} DigitsAppend(a: string, b: string)
    ensures Digits(a + b) == Digits(a) + Digits(b)
    decreases |a|
  {
    if |a| == 0 {
      assert a + b == b;
    } else {
      assert (a + b)[1..] == a[1..] + b;
      DigitsAppend(a[1..], b);
    }
  }

  lemma {:induction false} DigitsOfDigits(d: string)
    requires forall i :: 0 <= i < |d| ==> Text.IsDigit(d[i])
    ensures Digits(d) == d
    decreases |d|
  {
    if |d| > 0 {
      DigitsOfDigits(d[1..]);
    }
  }

  /** `(d0d1) d2d3d4d5 d6d7d8d9`. */
  function AreaCodeStyle(d: string): string
    requires |d| == 10
  {
    "(" + d[..2] + ") " + d[2..6] + " " + d[6..]
  }

  /** `d0d1d2d3 d4d5d6 d7d8d9`. */
  function MobileStyle(d: string): string
    requires |d| == 10
  {
    d[..4] + " " + d[4..7] + " " + d[7..]
  }

  /** `formatPhoneNumber` as written: the test for a leading `0` comes
      before the test for a leading `04`. */
  function FormatPhoneNumber(phone: string): string {
    if phone == "" then ""
    else
      var d := Digits(phone);
      if |d| == 10 && Text.StartsWith(d, "0") then AreaCodeStyle(d)
      else if |d| == 10 && Text.StartsWith(d, "04") then MobileStyle(d)
      else phone
  }

  /** The mobile layout is never produced: every ten-digit number starting
      with `04` already passes the test for a leading `0`. */
  lemma MobileBranchIsDead(phone: string)
    requires |Digits(phone)| == 10 && Text.StartsWith(Digits(phone), "04")
    ensures FormatPhoneNumber(phone) == AreaCodeStyle(Digits(phone))
  {
    assert Digits(phone)[0] == '0';
  }

  /** A mobile number comes out as `(04) 1234 5678`. */
  lemma MobileNumberExample(phone: string)
    requires phone == "0412345678"
    ensures FormatPhoneNumber(phone) == "(04) 1234 5678"
  {
    DigitsOfDigits(phone);
    assert Text.StartsWith(phone, "0");
    assert phone[..2] == "04" && phone[2..6] == "1234" && phone[6..] == "5678";
  }

  /** The formatter as evidently intended: the mobile test first. */
  function FormatPhoneNumberIntended(phone: string): (r: string)
    ensures var d := Digits(phone);
      && (phone == "" ==> r == "")
      && (phone != "" && |d| == 10 && Text.StartsWith(d, "04") ==> r == MobileStyle(d))
      && (phone != "" && |d| == 10 && Text.StartsWith(d, "0") && !Text.StartsWith(d, "04") ==> r == AreaCodeStyle(d))
      && (phone != "" && !(|d| == 10 && Text.StartsWith(d, "0")) ==> r == phone)
  {
    if phone == "" then ""
    else
      var d := Digits(phone);
      if |d| == 10 && Text.StartsWith(d, "04") then MobileStyle(d)
      else if |d| == 10 && Text.StartsWith(d, "0") then AreaCodeStyle(d)
      else phone
  }

  lemma {:induction false} NoDigits(s: string)
    requires forall i :: 0 <= i < |s| ==> !Text.IsDigit(s[i])
    ensures Digits(s) == ""
    decreases |s|
  {
    if |s| > 0 {
      NoDigits(s[1..]);
    }
  }

  /** A separator without digits contributes nothing to the digits. */
  lemma DigitsSkipSeparator(a: string, sep: string, b: string)
    requires forall i :: 0 <= i < |sep| ==> !Text.IsDigit(sep[i])
    ensures Digits(a + sep + b) == Digits(a) + Digits(b)
  {
    var front := a + sep;
    assert Digits(front) == Digits(a) by {
      DigitsAppend(a, sep);
      NoDigits(sep);
      assert Digits(a) + "" == Digits(a);
    }
    DigitsAppend(front, b);
  }

  lemma MobileKeepsDigits(d: string)
    requires |d| == 10 && forall i :: 0 <= i < |d| ==> Text.IsDigit(d[i])
    ensures Digits(MobileStyle(d)) == d
  {
    var x, y, z := d[..4], d[4..7], d[7..];
    var head := x + " " + y;
    assert Digits(head) == x + y by {
      DigitsOfDigits(x);
      DigitsOfDigits(y);
      DigitsSkipSeparator(x, " ", y);
    }
    assert Digits(head + " " + z) == x + y + z by {
      DigitsOfDigits(z);
      DigitsSkipSeparator(head, " ", z);
    }
    assert MobileStyle(d) == head + " " + z;
    assert d == x + y + z;
  }

  lemma AreaCodeKeepsDigits(d: string)
    requires |d| == 10 && forall i :: 0 <= i < |d| ==> Text.IsDigit(d[i])
    ensures Digits(AreaCodeStyle(d)) == d
  {
    var x, y, z := d[..2], d[2..6], d[6..];
    var open := "(" + x;
    assert Digits(open) == x by {
      DigitsOfDigits(x);
      assert open == "" + "(" + x;
      DigitsSkipSeparator("", "(", x);
    }
    var head := open + ") " + y;
    assert Digits(head) == x + y by {
      DigitsOfDigits(y);
      DigitsSkipSeparator(open, ") ", y);
    }
    assert Digits(head + " " + z) == x + y + z by {
      DigitsOfDigits(z);
      DigitsSkipSeparator(head, " ", z);
    }
    assert AreaCodeStyle(d) == head + " " + z;
    assert d == x + y + z;
  }

  /** Both layouts only add brackets and spaces: the digits, in order, are
      those of the input. */
  lemma LayoutsKeepDigits(d: string)
    requires |d| == 10 && forall i :: 0 <= i < |d| ==> Text.IsDigit(d[i])
    ensures Digits(AreaCodeStyle(d)) == d && Digits(MobileStyle(d)) == d
  {
    AreaCodeKeepsDigits(d);
    MobileKeepsDigits(d);
  }

  /** Formatting never loses, adds or reorders a digit, in either version. */
  lemma FormattingKeepsDigits(phone: string)
    ensures Digits(FormatPhoneNumber(phone)) == Digits(phone)
    ensures Digits(FormatPhoneNumberIntended(phone)) == Digits(phone)
  {
    if |Digits(phone)| == 10 {
      LayoutsKeepDigits(Digits(phone));
    }
  }
}
