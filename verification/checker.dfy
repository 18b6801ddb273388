/** The shared cardinality checker used by every entity's `check`: a list of
    (field name, expected size, actual size) triples is validated in order and
    the first mismatch aborts with an error naming the field and both sizes. */
module Checker {
  import opened Wrappers

  /** One size requirement: the field `name` must have `expected` entries. */
  datatype SizeCheck = SizeCheck(name: string, expected: nat, actual: nat)

  /** The failure raised by a violated size requirement. */
  datatype SizeError = SizeError(name: string, expected: nat, actual: nat)

  predicate Holds(c: SizeCheck) {
    c.expected == c.actual
  }

  /** All requirements hold, regardless of order. */
  predicate AllHold(checks: seq<SizeCheck>) {
    forall i :: 0 <= i < |checks| ==> Holds(checks[i])
  }

  /** The error a failing requirement raises. */
  function ErrorOf(c: SizeCheck): SizeError {
    SizeError(c.name, c.expected, c.actual)
  }

  /** Fail-fast validation: the first violated requirement, in list order,
      decides the error; later requirements are not looked at. */
  function Validate(checks: seq<SizeCheck>): (r: Outcome<SizeError>)
    ensures r.Pass? <==> AllHold(checks)
    ensures r.Fail? ==>
      exists i :: 0 <= i < |checks| && !Holds(checks[i]) && r.error == ErrorOf(checks[i])
        && forall j :: 0 <= j < i ==> Holds(checks[j])
    ensures r.Fail? ==> r.error.expected != r.error.actual
  {
    if |checks| == 0 then Pass
    else if !Holds(checks[0]) then Fail(ErrorOf(checks[0]))
    else
      var rest := Validate(checks[1..]);
      if rest.Fail? then
        ghost var i :| 0 <= i < |checks[1..]| && !Holds(checks[1..][i]) && rest.error == ErrorOf(checks[1..][i])
          && forall j :: 0 <= j < i ==> Holds(checks[1..][j]);
        assert !Holds(checks[i + 1]) && forall j :: 0 <= j < i + 1 ==> Holds(checks[j]);
        rest
      else
        rest
  }

  /** When every requirement before position `k` holds and the one at `k`
      does not, validation reports exactly the requirement at `k`. */
  lemma {:induction false} ValidateReportsFirst(checks: seq<SizeCheck>, k: nat)
    requires k < |checks|
    requires forall j :: 0 <= j < k ==> Holds(checks[j])
    requires !Holds(checks[k])
    ensures Validate(checks) == Fail(ErrorOf(checks[k]))
  {
    if k > 0 {
      assert Holds(checks[0]);
      ValidateReportsFirst(checks[1..], k - 1);
    }
  }

  /** Decimal rendering of a size, as Python's `str` of an integer. */
  function DigitChar(d: nat): (c: char)
    requires d < 10
    ensures '0' <= c <= '9'
  {
    "0123456789"[d]
  }

  function DigitValue(c: char): nat
    requires '0' <= c <= '9'
  {
    (c as int - '0' as int) as nat
  }

  function NatToString(n: nat): (s: string)
    ensures |s| > 0
    ensures forall i :: 0 <= i < |s| ==> '0' <= s[i] <= '9'
    ensures |s| > 1 ==> s[0] != '0'
  {
    if n < 10 then [DigitChar(n)] else NatToString(n / 10) + [DigitChar(n % 10)]
  }

  /** Reads a decimal string back; the partner of `NatToString`. */
  function ParseNat(s: string): nat
    requires forall i :: 0 <= i < |s| ==> '0' <= s[i] <= '9'
  {
    if |s| == 0 then 0 else 10 * ParseNat(s[..|s| - 1]) + DigitValue(s[|s| - 1])
  }

  /** Parsing a rendered size gives the size back, so the message fields can be
      recovered by tooling that reads the log. */
  lemma {:induction false} ParseNatToString(n: nat)
    ensures ParseNat(NatToString(n)) == n
  {
    var s := NatToString(n);
    if n < 10 {
      assert DigitValue(DigitChar(n)) == n;
    } else {
      ParseNatToString(n / 10);
      assert s[..|s| - 1] == NatToString(n / 10);
      assert DigitValue(DigitChar(n % 10)) == n % 10;
    }
  }

  /** Distinct sizes are rendered as distinct strings. */
  lemma NatToStringInjective(m: nat, n: nat)
    requires NatToString(m) == NatToString(n)
    ensures m == n
  {
    ParseNatToString(m);
    ParseNatToString(n);
  }

  /** The text carried by the raised error: "Invalid <name> size: <expected> != <actual>". */
  function Message(e: SizeError): (s: string)
    ensures |s| > |"Invalid "| && s[..|"Invalid "|] == "Invalid "
  {
    "Invalid " + e.name + " size: " + SizesText(e)
  }

  /** The "<expected> != <actual>" part of the error text. */
  function SizesText(e: SizeError): string {
    NatToString(e.expected) + " != " + NatToString(e.actual)
  }

  /** The line logged at error level before the error is raised: the same text
      followed by a full stop. */
  function LogLine(e: SizeError): string {
    Message(e) + "."
  }

  predicate AllDigits(s: string) {
    forall i :: 0 <= i < |s| ==> '0' <= s[i] <= '9'
  }

  /** In "<digits> != <rest>" the first space follows the digits. */
  lemma FirstSpace(x: string, y: string)
    requires AllDigits(x)
    ensures var s := x + " != " + y;
      s[|x|] == ' ' && forall i :: 0 <= i < |x| ==> s[i] != ' '
  {
  }

  /** "<expected> != <actual>" splits back into its two decimal fields. */
  lemma {:induction false} SizesSplit(x1: string, y1: string, x2: string, y2: string)
    requires AllDigits(x1) && AllDigits(x2)
    requires x1 + " != " + y1 == x2 + " != " + y2
    ensures x1 == x2 && y1 == y2
  {
    var s := x1 + " != " + y1;
    FirstSpace(x1, y1);
    FirstSpace(x2, y2);
    assert |x1| == |x2|;
    assert x1 == s[..|x1|] && x2 == s[..|x2|];
    assert y1 == s[|x1| + 4..] && y2 == s[|x2| + 4..];
  }

  /** For one field name, the error text determines the reported sizes: the
      expected and actual sizes can be read back from the message. */
  lemma MessageSizesReadBack(e1: SizeError, e2: SizeError)
    requires e1.name == e2.name && Message(e1) == Message(e2)
    ensures e1 == e2
  {
    PrefixCancel("Invalid " + e1.name + " size: ", SizesText(e1), SizesText(e2));
    SizesSplit(NatToString(e1.expected), NatToString(e1.actual), NatToString(e2.expected), NatToString(e2.actual));
    NatToStringInjective(e1.expected, e2.expected);
    NatToStringInjective(e1.actual, e2.actual);
  }

  lemma PrefixCancel(p: string, t1: string, t2: string)
    requires p + t1 == p + t2
    ensures t1 == t2
  {
    assert t1 == (p + t1)[|p|..];
    assert t2 == (p + t2)[|p|..];
  }

  /** The logged line carries the error text unchanged before its full stop,
      so for one field name it too determines the reported sizes. */
  lemma LogLineReadBack(e1: SizeError, e2: SizeError)
    requires e1.name == e2.name && LogLine(e1) == LogLine(e2)
    ensures LogLine(e1)[|LogLine(e1)| - 1] == '.'
    ensures e1 == e2
  {
    assert Message(e1) == LogLine(e1)[..|LogLine(e1)| - 1];
    assert Message(e2) == LogLine(e2)[..|LogLine(e2)| - 1];
    MessageSizesReadBack(e1, e2);
  }
}
