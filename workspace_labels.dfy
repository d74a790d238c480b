/**
 * The text shown on a workspace preview: the workspace's 1-based number,
 * followed by ". " and the workspace's configured name when it has one.
 */
module WorkspaceLabels {
  import opened Wrappers

  predicate IsDigit(c: char) { '0' <= c <= '9' }

  predicate AllDigits(s: string) { forall i :: 0 <= i < |s| ==> IsDigit(s[i]) }

  /** Decimal rendering of a natural number, as JavaScript's template strings print it. */
  function Decimal(n: nat): (s: string)
    ensures |s| >= 1 && AllDigits(s)
    ensures s[0] == '0' ==> n == 0
    decreases n
  {
    var d := ['0' + (n % 10) as char];
    if n < 10 then d else Decimal(n / 10) + d
  }

  /** The value of a string of decimal digits. */
  function ParseDecimal(s: string): nat
    requires AllDigits(s)
  {
    if s == [] then 0
    else ParseDecimal(s[..|s| - 1]) * 10 + (s[|s| - 1] - '0') as nat
  }

  /** Reading the rendered number back gives the number. */
  lemma {:induction false} ParseDecimalRoundTrip(n: nat)
    ensures ParseDecimal(Decimal(n)) == n
    decreases n
  {
    var s := Decimal(n);
    assert s[..|s| - 1] == if n < 10 then [] else Decimal(n / 10);
    if n >= 10 {
      ParseDecimalRoundTrip(n / 10);
    }
  }

  /** Number of decimal digits at the start of `s`. */
  function LeadingDigitCount(s: string): (k: nat)
    ensures k <= |s|
  {
    if s == [] || !IsDigit(s[0]) then 0 else 1 + LeadingDigitCount(s[1..])
  }

  lemma {:induction false} LeadingDigitsOfConcat(a: string, b: string)
    requires AllDigits(a)
    requires b == [] || !IsDigit(b[0])
    ensures LeadingDigitCount(a + b) == |a|
    decreases |a|
  {
    if a != [] {
      assert (a + b)[1..] == a[1..] + b;
      LeadingDigitsOfConcat(a[1..], b);
    } else {
      assert a + b == b;
    }
  }

  /** The number a label starts with. */
  function LabelNumber(s: string): nat
  {
    var k := LeadingDigitCount(s);
    assert AllDigits(s[..k]) by {
      forall i | 0 <= i < k ensures IsDigit(s[..k][i]) { LeadingDigitIsDigit(s, i); }
    }
    ParseDecimal(s[..k])
  }

  lemma {:induction false} LeadingDigitIsDigit(s: string, i: nat)
    requires i < LeadingDigitCount(s)
    ensures IsDigit(s[i])
    decreases i
  {
    if i > 0 {
      LeadingDigitIsDigit(s[1..], i - 1);
    }
  }

  /** Whether workspace `index` has a non-empty configured name. */
  predicate HasName(index: nat, names: Option<seq<string>>)
  {
    names.Some? && |names.value| > index && names.value[index] != ""
  }

  /**
   * The label of the workspace at `index`; `names` is the window manager's
   * workspace-names list, absent when it cannot be read.
   */
  function WorkspaceDisplayText(index: nat, names: Option<seq<string>>): (r: string)
    ensures HasName(index, names) ==> r == Decimal(index + 1) + ". " + names.value[index]
    ensures !HasName(index, names) ==> r == Decimal(index + 1)
  {
    var number := Decimal(index + 1);
    if HasName(index, names) then number + ". " + names.value[index] else number
  }

  /** Every label starts with the workspace's 1-based number, whatever its name. */
  lemma {:induction false} DisplayTextNumber(index: nat, names: Option<seq<string>>)
    ensures LabelNumber(WorkspaceDisplayText(index, names)) == index + 1
  {
    var number := Decimal(index + 1);
    var r := WorkspaceDisplayText(index, names);
    var rest := if HasName(index, names) then ". " + names.value[index] else "";
    assert r == number + rest;
    LeadingDigitsOfConcat(number, rest);
    assert r[..|number|] == number;
    ParseDecimalRoundTrip(index + 1);
  }
}
