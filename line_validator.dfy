/** The line validator (ContainsSpecial in main.cpp): a line may be sorted only when
    every character is a letter. `std::isdigit` and `std::isalnum` are the C-locale
    classifications, so a letter is 'A'..'Z' or 'a'..'z' and a digit is '0'..'9'; any
    other character, non-ASCII ones included, is neither. */
module LineValidator {

  predicate IsDigit(c: char)
  {
    '0' <= c <= '9'
  }

  predicate IsLetter(c: char)
  {
    'A' <= c <= 'Z' || 'a' <= c <= 'z'
  }

  predicate IsAlnum(c: char)
  {
    IsDigit(c) || IsLetter(c)
  }

  /** The test inside the loop: a digit, or not alphanumeric. */
  predicate IsSpecial(c: char)
  {
    IsDigit(c) || !IsAlnum(c)
  }

  /** Whether the line holds a character that disqualifies it; false exactly when every
      character is a letter, so false for the empty line. */
  function ContainsSpecial(s: string): (r: bool)
    ensures !r <==> forall i :: 0 <= i < |s| ==> IsLetter(s[i])
  {
    if |s| == 0 then false
    else if IsSpecial(s[0]) then true
    else ContainsSpecial(s[1..])
  }

  /** The source's range-for loop with its early return. */
  method ContainsSpecialScan(s: string) returns (r: bool)
    ensures r == ContainsSpecial(s)
    ensures r <==> exists i :: 0 <= i < |s| && !IsLetter(s[i])
  {
    for i := 0 to |s|
      invariant forall j :: 0 <= j < i ==> IsLetter(s[j])
    {
      if IsDigit(s[i]) || !IsAlnum(s[i]) {
        return true;
      }
    }
    return false;
  }

  /** A line that reaches the sort: non-empty and letters only. */
  predicate IsAcceptable(line: string)
  {
    line != "" && !ContainsSpecial(line)
  }

  /** Examples of the rule: letters of both cases pass; digits, blanks and the empty
      line do not. */
  lemma ValidatorExamples()
    ensures IsAcceptable("abcDEF")
    ensures !IsAcceptable("abc123")
    ensures !IsAcceptable("hello world")
    ensures !IsAcceptable("")
  {
    assert !IsLetter("abc123"[3]);
    assert !IsLetter("hello world"[5]);
  }
}
