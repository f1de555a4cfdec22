/** The text normaliser `clear_enters`: every input (key, alphabet and
    plaintext) is lower-cased and then stripped of its '\n' characters.
    Carriage returns and everything else are kept. */
module Normalizer {
  import opened Strings

  /** `s` with every '\n' removed and the other characters in order. */
  function StripNewlines(s: seq<char>): seq<char>
  {
    if s == [] then [] else (if s[0] == '\n' then [] else [s[0]]) + StripNewlines(s[1..])
  }

  /** What `clear_enters` leaves in its argument. */
  function Normalized(s: seq<char>): seq<char>
  {
    StripNewlines(ToLower(s))
  }

  /** Stripping works character by character: it distributes over
      concatenation, which together with its effect on one character
      says that it is the order-preserving filter that drops '\n'. */
  lemma {:induction false} StripNewlinesConcat(a: seq<char>, b: seq<char>)
    ensures StripNewlines(a + b) == StripNewlines(a) + StripNewlines(b)
  {
    if a == [] {
      assert a + b == b;
    } else {
      assert (a + b)[1..] == a[1..] + b;
      StripNewlinesConcat(a[1..], b);
    }
  }

  lemma {:induction false} StripNewlinesRemovesAll(s: seq<char>)
    ensures '\n' !in StripNewlines(s)
    ensures |StripNewlines(s)| + multiset(s)['\n'] == |s|
  {
    if s != [] {
      StripNewlinesRemovesAll(s[1..]);
      assert s == [s[0]] + s[1..];
      assert multiset(s) == multiset{s[0]} + multiset(s[1..]);
    }
  }

  /** A string without '\n' is left unchanged by stripping. */
  lemma {:induction false} StripNewlinesFixed(s: seq<char>)
    requires '\n' !in s
    ensures StripNewlines(s) == s
  {
    if s != [] {
      StripNewlinesFixed(s[1..]);
    }
  }

  /** Removing one '\n' (one `remove(pos, 1)` call) does not change what
      stripping produces. */
  lemma RemoveNewlineAt(s: seq<char>, pos: int)
    requires 0 <= pos < |s| && s[pos] == '\n'
    ensures StripNewlines(s[..pos] + s[pos + 1..]) == StripNewlines(s)
  {
    assert s == s[..pos] + ([s[pos]] + s[pos + 1..]);
    StripNewlinesConcat(s[..pos], [s[pos]] + s[pos + 1..]);
    StripNewlinesConcat(s[..pos], s[pos + 1..]);
    assert ([s[pos]] + s[pos + 1..])[1..] == s[pos + 1..];
  }

  /** Stripping never introduces an upper-case letter. */
  lemma {:induction false} StripNewlinesKeepsLower(s: seq<char>)
    requires forall i :: 0 <= i < |s| ==> !IsUpper(s[i])
    ensures forall i :: 0 <= i < |StripNewlines(s)| ==> !IsUpper(StripNewlines(s)[i])
  {
    if s != [] {
      StripNewlinesKeepsLower(s[1..]);
    }
  }

  /** `clear_enters`: lower-case the text, then remove '\n' one at a time
      while any is left. */
  method ClearEnters(text: seq<char>) returns (cleared: seq<char>)
    ensures cleared == Normalized(text)
    ensures '\n' !in cleared
  {
    cleared := ToLower(text);
    ghost var lowered := cleared;
    while '\n' in cleared
      invariant StripNewlines(cleared) == StripNewlines(lowered)
      decreases |cleared|
    {
      var pos := IndexOf(cleared, '\n');
      if pos != -1 {
        RemoveNewlineAt(cleared, pos);
        cleared := cleared[..pos] + cleared[pos + 1..];
      }
    }
    StripNewlinesFixed(cleared);
  }

  /** The normalised text holds no '\n' and no upper-case letter, and it is
      exactly as long as the input less its '\n' characters. */
  lemma NormalizedShape(s: seq<char>)
    ensures '\n' !in Normalized(s)
    ensures forall i :: 0 <= i < |Normalized(s)| ==> !IsUpper(Normalized(s)[i])
    ensures |Normalized(s)| + multiset(s)['\n'] == |s|
  {
    var lowered := ToLower(s);
    StripNewlinesRemovesAll(lowered);
    StripNewlinesKeepsLower(lowered);
    NewlineCountUnderLower(s);
  }

  /** Folding maps '\n' to itself and nothing else to '\n', so it keeps the
      number of '\n' characters. */
  lemma {:induction false} NewlineCountUnderLower(s: seq<char>)
    ensures multiset(ToLower(s))['\n'] == multiset(s)['\n']
  {
    if s != [] {
      NewlineCountUnderLower(s[1..]);
      assert s == [s[0]] + s[1..];
      assert ToLower(s) == [LowerChar(s[0])] + ToLower(s[1..]);
      assert multiset(ToLower(s)) == multiset{LowerChar(s[0])} + multiset(ToLower(s[1..]));
    }
  }

  /** Normalising twice gives the same result as normalising once. */
  lemma NormalizedIdempotent(s: seq<char>)
    ensures Normalized(Normalized(s)) == Normalized(s)
  {
    var once := Normalized(s);
    NormalizedShape(s);
    ToLowerFixed(once);
    StripNewlinesFixed(once);
  }
}
