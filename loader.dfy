/** The loaders `get_alph`, `get_keys` and `get_text` after the file has
    been read: an empty file is refused, otherwise the content up to its
    first NUL is normalised with `clear_enters`. `get_alph` also records the
    alphabet length and whether the alphabet holds a space, in the two
    program-wide variables that the cipher later reads. */
module Loader {
  import opened Strings
  import opened Normalizer
  import opened Cipher

  datatype Option<T> = None | Some(value: T)

  /** The string a QString built from a NUL-terminated buffer holds: the
      content up to, not including, its first NUL. */
  function UntilNul(content: seq<char>): (r: seq<char>)
    ensures r <= content
    ensures '\0' !in r
    ensures |r| < |content| ==> content[|r|] == '\0'
  {
    if content == [] || content[0] == '\0' then []
    else [content[0]] + UntilNul(content[1..])
  }

  /** What a loader makes of the content of its file: nothing for an empty
      file, otherwise normalised text (no '\n', no upper-case letter, and
      left as it is by normalising again). */
  function Loaded(content: seq<char>): (r: Option<seq<char>>)
    ensures r.None? <==> |content| == 0
    ensures r.Some? ==> '\n' !in r.value && Normalized(r.value) == r.value
    ensures r.Some? ==> forall i :: 0 <= i < |r.value| ==> !IsUpper(r.value[i])
  {
    if |content| == 0 then None
    else
      var s := UntilNul(content);
      NormalizedShape(s);
      NormalizedIdempotent(s);
      Some(Normalized(s))
  }

  /** `get_keys`: only an empty file is refused, so a file of nothing but
      '\n' yields an empty key. */
  method GetKeys(content: seq<char>) returns (keys: Option<seq<char>>)
    ensures keys.None? <==> |content| == 0
    ensures keys == Loaded(content)
  {
    if |content| == 0 {
      return None;
    }
    var s := ClearEnters(UntilNul(content));
    keys := Some(s);
  }

  /** A key file holding only a line break passes the size check of
      `get_keys` and yields an empty key; `main` refuses it afterwards. */
  lemma NewlineKeyIsEmpty()
    ensures Loaded("\n") == Some([])
  {
  }

  /** `main`'s test `x == NULL` on a loader's result. Comparing a QString
      with a null `char*` compares it with the empty string, so the test
      holds both for a refusal and for an empty normalised text. */
  predicate IsNull(r: Option<seq<char>>) {
    r.None? || r.value == []
  }

  /** The content of a file that `main` goes on with: its loader accepts it
      and the normalised text is not empty. */
  predicate Usable(content: seq<char>) {
    !IsNull(Loaded(content))
  }

  /** Together, a loader and `main`'s test refuse exactly the content whose
      part before the first NUL normalises to nothing: an empty file, or one
      holding only line breaks before any NUL. */
  lemma UsableIffNonEmpty(content: seq<char>)
    ensures !Usable(content) <==> Normalized(UntilNul(content)) == []
    ensures (forall i :: 0 <= i < |content| ==> content[i] == '\n') ==> !Usable(content)
  {
    if forall i :: 0 <= i < |content| ==> content[i] == '\n' {
      assert '\0' !in content;
      assert UntilNul(content) == content;
      NormalizedShape(content);
      NewlineCountAll(content);
    }
  }

  lemma {:induction false} NewlineCountAll(s: seq<char>)
    requires forall i :: 0 <= i < |s| ==> s[i] == '\n'
    ensures multiset(s)['\n'] == |s|
  {
    if s != [] {
      NewlineCountAll(s[1..]);
      assert s == [s[0]] + s[1..];
      assert multiset(s) == multiset{s[0]} + multiset(s[1..]);
    }
  }

  /** `get_text`: only an empty file is refused, so the normalised plaintext
      may be empty; `main` refuses that afterwards. The body is the same as
      that of `GetKeys`, as `get_text` repeats `get_keys` in the source. */
  method GetText(content: seq<char>) returns (text: Option<seq<char>>)
    ensures text.None? <==> |content| == 0
    ensures text == Loaded(content)
  {
    if |content| == 0 {
      return None;
    }
    var s := ClearEnters(UntilNul(content));
    text := Some(s);
  }

  /** The program-wide variables `alph_length` and `isSpace`. */
  class Globals {
    var alphLength: int
    var isSpace: bool

    constructor ()
      ensures alphLength == 33 && !isSpace
    {
      alphLength := 33;
      isSpace := false;
    }

    /** `get_alph`: refuses an empty file and then changes nothing;
        otherwise returns the normalised alphabet, sets `alphLength` to its
        length and sets `isSpace` when it holds a space (the flag is never
        cleared). */
    method GetAlph(content: seq<char>) returns (alph: Option<seq<char>>)
      modifies this
      ensures alph == Loaded(content)
      ensures alph.None? ==> alphLength == old(alphLength) && isSpace == old(isSpace)
      ensures alph.Some? ==> alphLength == |alph.value|
      ensures alph.Some? ==> isSpace == (old(isSpace) || ' ' in alph.value)
    {
      if |content| == 0 {
        return None;
      }
      alphLength := |content|;
      var s := ClearEnters(UntilNul(content));
      alphLength := |s|;
      if IndexOf(s, ' ') != -1 {
        isSpace := true;
      }
      alph := Some(s);
    }

    /** The data flow of `main` once the three files have been read: load
        the alphabet, the key and the plaintext, stop at the first result
        that compares equal to `NULL`, and encrypt with the recorded
        alphabet length. The globals are those `get_alph` left, whether or
        not a later input is refused. */
    method Run(keyContent: seq<char>, alphContent: seq<char>, textContent: seq<char>)
      returns (encrText: Option<seq<char>>)
      modifies this
      ensures encrText.None? <==> !(Usable(alphContent) && Usable(keyContent) && Usable(textContent))
      ensures encrText.Some? ==>
                var alph, key, text := Loaded(alphContent).value, Loaded(keyContent).value, Loaded(textContent).value;
                |alph| > 0 && |key| > 0 && |text| > 0 &&
                encrText.value == Encrypt(alph, key, |alph|, text)
      ensures Loaded(alphContent).None? ==> alphLength == old(alphLength) && isSpace == old(isSpace)
      ensures Loaded(alphContent).Some? ==>
                alphLength == |Loaded(alphContent).value| &&
                isSpace == (old(isSpace) || ' ' in Loaded(alphContent).value)
    {
      var colmAlph := GetAlph(alphContent);
      if IsNull(colmAlph) {
        return None;
      }
      var keys := GetKeys(keyContent);
      if IsNull(keys) {
        return None;
      }
      var buff := GetText(textContent);
      if IsNull(buff) {
        return None;
      }
      var shfrBuff := EncryptText(colmAlph.value, keys.value, buff.value, alphLength);
      encrText := Some(shfrBuff);
    }
  }
}
