// Numbers as text: printed in decimal, and read back from a run of digits.
module Digits {
  import opened Options

  predicate IsDigit(c: char) {
    '0' <= c <= '9'
  }

  function Decimal(n: nat): (s: string)
    ensures s != ""
  {
    var digit := ['0' + (n % 10) as char];
    if n < 10 then digit else Decimal(n / 10) + digit
  }

  function ParseNat(raw: string): Option<nat> {
    if raw == "" then None
    else if !IsDigit(raw[|raw| - 1]) then None
    else
      var digit := raw[|raw| - 1] as int - '0' as int;
      if |raw| == 1 then Some(digit)
      else
        var front := ParseNat(raw[..|raw| - 1]);
        if front.None? then None else Some(10 * front.value + digit)
  }

  // Exactly the non-empty texts of digits are read.
  lemma {:induction false} ParsesIff(raw: string)
    ensures ParseNat(raw).Some? <==> raw != "" && forall i :: 0 <= i < |raw| ==> IsDigit(raw[i])
  {
    if |raw| > 1 {
      var front := raw[..|raw| - 1];
      ParsesIff(front);
      assert forall i :: 0 <= i < |front| ==> front[i] == raw[i];
    }
  }

  // The last digit counts ones, what is in front of it tens.
  lemma ParseAppend(front: string, d: char)
    requires '0' <= d <= '9'
    ensures ParseNat([d]) == Some(d as int - '0' as int)
    ensures ParseNat(front).Some? ==> ParseNat(front + [d]) == Some(10 * ParseNat(front).value + (d as int - '0' as int))
  {
    assert (front + [d])[..|front + [d]| - 1] == front;
  }

  // What is printed is read back.
  lemma {:induction false} ParseDecimal(n: nat)
    ensures ParseNat(Decimal(n)) == Some(n)
  {
    if n >= 10 {
      ParseDecimal(n / 10);
      var s := Decimal(n);
      assert s[..|s| - 1] == Decimal(n / 10);
    }
  }
}
