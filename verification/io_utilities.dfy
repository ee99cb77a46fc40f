/** `IOUtilities.parseDefaultYes`: a console answer counts as "yes" when it
    is empty, "Y" or "YES" after `toUpperCase()`. */
module IOUtilities {

  /** Upper-casing of one character, as far as it can produce an ASCII
      letter: ASCII `a`-`z`, plus the two non-ASCII letters whose upper case
      is ASCII (dotless i and long s). Every other character is left as it is;
      its upper case is never an ASCII letter, so "Y" and "YES" cannot arise
      from it. */
  function ToUpperChar(c: char): char {
    if 'a' <= c <= 'z' then (c as int - 32) as char
    else if c == 'ı' then 'I'
    else if c == 'ſ' then 'S'
    else c
  }

  function ToUpperCase(s: string): (r: string)
    ensures |r| == |s|
    ensures forall i :: 0 <= i < |s| ==> r[i] == ToUpperChar(s[i])
  {
    seq(|s|, i requires 0 <= i < |s| => ToUpperChar(s[i]))
  }

  /** `parseDefaultYes(input)`: true exactly for the empty answer and for
      every spelling of "y" and "yes" in any mix of cases. */
  function ParseDefaultYes(input: string): (isYes: bool)
    ensures isYes <==>
      || input == ""
      || (|input| == 1 && input[0] in "yY")
      || (|input| == 3 && input[0] in "yY" && input[1] in "eE" && input[2] in "sSſ")
  {
    var upper := ToUpperCase(input);
    assert upper == "Y" <==> |input| == 1 && upper[0] == 'Y';
    assert upper == "YES" <==> |input| == 3 && upper[0] == 'Y' && upper[1] == 'E' && upper[2] == 'S';
    |upper| == 0 || upper == "Y" || upper == "YES"
  }

  /** The answer is a function of the upper-cased input alone. */
  lemma ParseDefaultYesDependsOnlyOnUpperCase(a: string, b: string)
    requires ToUpperCase(a) == ToUpperCase(b)
    ensures ParseDefaultYes(a) == ParseDefaultYes(b)
  {
  }

  lemma ParseDefaultYesExamples()
    ensures ParseDefaultYes("") && ParseDefaultYes("y") && ParseDefaultYes("Y")
    ensures ParseDefaultYes("yes") && ParseDefaultYes("Yes") && ParseDefaultYes("YES")
    ensures !ParseDefaultYes("n") && !ParseDefaultYes("ye") && !ParseDefaultYes(" yes")
    ensures !ParseDefaultYes("yes ") && !ParseDefaultYes("no")
  {
  }
}
