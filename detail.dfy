/** `isValidOsmId` of the detail view: the `id` query parameter names a
    place only when it is a run of ASCII digits whose value is a positive
    safe integer. */
module OsmIds {
  import Strings

  /** `Number.MAX_SAFE_INTEGER`, 2^53 - 1. */
  const MaxSafeInteger: nat := 9007199254740991

  /** `/^\d+$/.test(value) && Number(value) > 0 && Number(value) <=
      Number.MAX_SAFE_INTEGER`. The comparison is on the exact value: every
      digit string above the bound converts to a number of at least 2^53,
      so it is rejected either way. */
  predicate IsValidOsmId(value: string) {
    |value| >= 1 && Strings.AllDigits(value) &&
    0 < Strings.DigitsValue(value) <= MaxSafeInteger
  }

  function Zeros(k: nat): (z: string)
    ensures |z| == k && Strings.AllDigits(z)
    ensures forall i :: 0 <= i < k ==> z[i] == '0'
  {
    seq(k, _ => '0')
  }

  /** The canonical spelling of a number is accepted exactly when the
      number is between 1 and the safe-integer bound. */
  lemma CanonicalIds(n: nat)
    ensures IsValidOsmId(Strings.NatToDecimal(n)) <==> 1 <= n <= MaxSafeInteger
  {
  }

  /** Leading zeros change nothing: a digit string is accepted with zeros in
      front of it exactly when it is accepted without them. */
  lemma LeadingZerosIgnored(k: nat, s: string)
    requires |s| >= 1
    ensures IsValidOsmId(Zeros(k) + s) <==> IsValidOsmId(s)
  {
    var z := Zeros(k) + s;
    if Strings.AllDigits(s) {
      ZerosPrefixValue(k, s);
    } else {
      var i :| 0 <= i < |s| && !Strings.IsDigit(s[i]);
      assert z[k + i] == s[i];
    }
  }

  lemma {:induction false} ZerosPrefixValue(k: nat, s: string)
    requires Strings.AllDigits(s)
    ensures Strings.AllDigits(Zeros(k) + s)
    ensures Strings.DigitsValue(Zeros(k) + s) == Strings.DigitsValue(s)
    decreases |s|
  {
    var z := Zeros(k) + s;
    if s == [] {
      assert z == Zeros(k);
      ZerosValue(k);
    } else {
      var init := s[..|s| - 1];
      ZerosPrefixValue(k, init);
      assert z[..|z| - 1] == Zeros(k) + init;
    }
  }

  lemma {:induction false} ZerosValue(k: nat)
    ensures Strings.DigitsValue(Zeros(k)) == 0
    decreases k
  {
    if k > 0 {
      ZerosValue(k - 1);
      assert Zeros(k)[..k - 1] == Zeros(k - 1);
    }
  }

  /** The cases of the detail view: zero in any spelling, the empty
      string, signs and other characters are rejected, and a positive id
      with leading zeros is accepted. */
  lemma Examples()
    ensures !IsValidOsmId("") && !IsValidOsmId("0") && !IsValidOsmId("000")
    ensures !IsValidOsmId("-1") && !IsValidOsmId("1.5") && !IsValidOsmId(" 42") && !IsValidOsmId("12a")
    ensures IsValidOsmId("007") && IsValidOsmId("42")
  {
    assert "000"[..2] == "00" && "00"[..1] == "0";
    assert !Strings.IsDigit("-1"[0]) && !Strings.IsDigit("1.5"[1]) && !Strings.IsDigit(" 42"[0]) && !Strings.IsDigit("12a"[2]);
    assert "007"[..2] == "00" && "00"[..1] == "0";
    assert "42"[..1] == "4";
  }
}
