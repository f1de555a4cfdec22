/** The two QString primitives the cipher and the normaliser rely on:
    first-occurrence lookup (QString::indexOf) and lower-case folding
    (QString::toLower, modelled as ASCII folding of 'A'..'Z'). */
module Strings {

  /** The position of the first occurrence of `c` in `s`, or -1 when `c` does not occur. */
  function IndexOf(s: seq<char>, c: char): (r: int)
    ensures -1 <= r < |s|
    ensures r == -1 <==> c !in s
    ensures r >= 0 ==> s[r] == c && c !in s[..r]
  {
    if |s| == 0 then -1
    else if s[0] == c then 0
    else
      var t := IndexOf(s[1..], c);
      if t < 0 then -1
      else
        assert s[..t + 1] == [s[0]] + s[1..][..t];
        t + 1
  }

  predicate IsUpper(c: char) {
    'A' <= c <= 'Z'
  }

  function LowerChar(c: char): (r: char)
    ensures !IsUpper(r)
    ensures IsUpper(c) || r == c
  {
    if IsUpper(c) then (c as int + 32) as char else c
  }

  /** Lower-case folding of a whole string: same length, and no upper-case
      letter remains; every other character is kept where it was. */
  function ToLower(s: seq<char>): (r: seq<char>)
    ensures |r| == |s|
    ensures forall i :: 0 <= i < |s| ==> r[i] == LowerChar(s[i])
  {
    seq(|s|, i requires 0 <= i < |s| => LowerChar(s[i]))
  }

  /** Folding a string that holds no upper-case letter leaves it as it is;
      in particular folding is idempotent. */
  lemma ToLowerFixed(s: seq<char>)
    requires forall i :: 0 <= i < |s| ==> !IsUpper(s[i])
    ensures ToLower(s) == s
  {
  }
}
