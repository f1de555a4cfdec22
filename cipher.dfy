/** The keyed substitution `get_encr_text`. One pass over the plaintext,
    with a cyclic cursor into the key:
    - a plaintext character outside the alphabet is copied as it is and
      does not move the cursor;
    - an alphabet character paired with a key character outside the
      alphabet produces nothing, and the cursor moves on;
    - otherwise the output is the alphabet character at the sum of the two
      positions, folded back by absolute difference when it reaches `n`.
    `n` is the global alphabet length, which the alphabet loader sets to
    the length of the alphabet. */
module Cipher {
  import opened Strings

  function Abs(x: int): int {
    if x < 0 then -x else x
  }

  /** The index the cipher reads the output character from: in range, and
      equal to the Vigenère sum modulo the alphabet length. */
  function FoldIndex(posC: int, posK: int, n: int): (r: int)
    requires 0 <= posC < n && 0 <= posK < n
    ensures 0 <= r < n
    ensures r == (posC + posK) % n
  {
    var sum := posC + posK;
    if sum >= n then Abs(sum - n) else sum
  }

  /** The number of characters of `s` that occur in the alphabet: the number
      of steps on which the key cursor moves while `s` is consumed. */
  function CountIn(alph: seq<char>, s: seq<char>): (r: nat)
    ensures r <= |s|
  {
    if s == [] then 0
    else CountIn(alph, s[..|s| - 1]) + (if s[|s| - 1] in alph then 1 else 0)
  }

  /** The cursor moves once for every character when all of them are in the
      alphabet, and never when none of them is. */
  lemma {:induction false} CountInExtremes(alph: seq<char>, s: seq<char>)
    ensures (forall i :: 0 <= i < |s| ==> s[i] in alph) ==> CountIn(alph, s) == |s|
    ensures (forall i :: 0 <= i < |s| ==> s[i] !in alph) ==> CountIn(alph, s) == 0
  {
    if s != [] {
      CountInExtremes(alph, s[..|s| - 1]);
    }
  }

  /** The key character consulted for the plaintext character that follows
      `before`: the key read cyclically by the number of alphabet characters
      already consumed. */
  function KeyCharAfter(alph: seq<char>, key: seq<char>, before: seq<char>): char
    requires |key| > 0
  {
    key[CountIn(alph, before) % |key|]
  }

  /** The output (zero or one character) for plaintext character `c` when
      `before` precedes it. */
  function Emit(alph: seq<char>, key: seq<char>, n: int, before: seq<char>, c: char): seq<char>
    requires n == |alph| && |key| > 0
  {
    var posC := IndexOf(alph, c);
    if posC < 0 then [c]
    else
      var posK := IndexOf(alph, KeyCharAfter(alph, key, before));
      if posK < 0 then [] else [alph[FoldIndex(posC, posK, n)]]
  }

  /** The ciphertext of `text`: the outputs of its characters, in order. */
  function Encrypt(alph: seq<char>, key: seq<char>, n: int, text: seq<char>): seq<char>
    requires n == |alph| && |key| > 0
    decreases |text|
  {
    if text == [] then []
    else
      var m := |text| - 1;
      Encrypt(alph, key, n, text[..m]) + Emit(alph, key, n, text[..m], text[m])
  }

  /** Counting one more step moves the cyclic position on by one, back to 0
      at the end of the key. */
  lemma ModNext(count: int, m: int)
    requires m > 0
    ensures (count + 1) % m == if count % m + 1 == m then 0 else count % m + 1
  {
    var q := count / m;
    var r := count % m;
    assert count == q * m + r;
    if r + 1 == m {
      assert count + 1 == (q + 1) * m + 0;
      FloorUnique(count + 1, q + 1, 0, m);
    } else {
      FloorUnique(count + 1, q, r + 1, m);
    }
  }

  lemma FloorUnique(y: int, q: int, r: int, m: int)
    requires m > 0 && 0 <= r < m && y == q * m + r
    ensures y % m == r
  {
    var q', r' := y / m, y % m;
    var d := q - q';
    assert d * m == r' - r;
  }

  /** Consuming one more character appends its output and moves the cursor
      exactly when the character is in the alphabet. */
  lemma EncryptSnoc(alph: seq<char>, key: seq<char>, n: int, text: seq<char>, c: char)
    requires n == |alph| && |key| > 0
    ensures Encrypt(alph, key, n, text + [c]) == Encrypt(alph, key, n, text) + Emit(alph, key, n, text, c)
    ensures CountIn(alph, text + [c]) == CountIn(alph, text) + (if c in alph then 1 else 0)
  {
    assert (text + [c])[..|text|] == text;
  }

  /** `get_encr_text`, with the key and text iterators as index cursors.
      `iterKey` is reset to the key's start when it reaches the end, and a
      passthrough step decrements it so that the loop's increment leaves it
      where it was. */
  method EncryptText(colmAlph: seq<char>, key: seq<char>, clearText: seq<char>, n: int)
    returns (encrText: seq<char>)
    requires n == |colmAlph| && |key| > 0
    ensures encrText == Encrypt(colmAlph, key, n, clearText)
  {
    encrText := [];
    var iterKey := 0;
    var iterTxt := 0;
    while iterTxt < |clearText|
      invariant 0 <= iterTxt <= |clearText|
      invariant 0 <= iterKey <= |key|
      invariant (if iterKey == |key| then 0 else iterKey) == CountIn(colmAlph, clearText[..iterTxt]) % |key|
      invariant encrText == Encrypt(colmAlph, key, n, clearText[..iterTxt])
    {
      if iterKey == |key| {
        iterKey := 0;
      }
      ghost var before := clearText[..iterTxt];
      ghost var count := CountIn(colmAlph, before);
      var c := clearText[iterTxt];
      assert clearText[..iterTxt + 1] == before + [c];
      EncryptSnoc(colmAlph, key, n, before, c);
      assert key[iterKey] == KeyCharAfter(colmAlph, key, before);
      var incrAlph := IndexOf(colmAlph, c);
      if incrAlph < 0 {
        encrText := encrText + [c];
        iterKey := iterKey - 1;
      } else {
        var incrKey := IndexOf(colmAlph, key[iterKey]);
        if incrKey >= 0 {
          var incrText := incrAlph + incrKey;
          if incrText >= n {
            incrText := Abs(incrText - n);
          }
          assert incrText == FoldIndex(incrAlph, incrKey, n);
          encrText := encrText + [colmAlph[incrText]];
        }
        ModNext(count, |key|);
      }
      iterTxt := iterTxt + 1;
      iterKey := iterKey + 1;
    }
    assert clearText[..iterTxt] == clearText;
  }

  /** The ciphertext is never longer than the plaintext, an empty plaintext
      gives an empty ciphertext, and when every key character is in the
      alphabet no character is lost. */
  lemma {:induction false} EncryptLength(alph: seq<char>, key: seq<char>, n: int, text: seq<char>)
    requires n == |alph| && |key| > 0
    ensures |Encrypt(alph, key, n, text)| <= |text|
    ensures text == [] ==> Encrypt(alph, key, n, text) == []
    ensures (forall i :: 0 <= i < |key| ==> key[i] in alph) ==> |Encrypt(alph, key, n, text)| == |text|
  {
    if text != [] {
      var m := |text| - 1;
      EncryptLength(alph, key, n, text[..m]);
    }
  }

  /** The plaintext position each ciphertext character comes from. */
  function Origins(alph: seq<char>, key: seq<char>, n: int, text: seq<char>): seq<nat>
    requires n == |alph| && |key| > 0
    decreases |text|
  {
    if text == [] then []
    else
      var m := |text| - 1;
      Origins(alph, key, n, text[..m]) + (if Emit(alph, key, n, text[..m], text[m]) == [] then [] else [m])
  }

  /** Every ciphertext character comes from its own plaintext position, in
      plaintext order: it is a character of the alphabet when that plaintext
      character is one, and a verbatim copy of it otherwise. No character
      outside the alphabet is ever lost. */
  lemma {:induction false} EncryptOrigins(alph: seq<char>, key: seq<char>, n: int, text: seq<char>)
    requires n == |alph| && |key| > 0
    ensures |Origins(alph, key, n, text)| == |Encrypt(alph, key, n, text)|
    ensures forall j :: 0 <= j < |Origins(alph, key, n, text)| ==> Origins(alph, key, n, text)[j] < |text|
    ensures forall j, j' :: 0 <= j < j' < |Origins(alph, key, n, text)| ==>
              Origins(alph, key, n, text)[j] < Origins(alph, key, n, text)[j']
    ensures forall j :: 0 <= j < |Origins(alph, key, n, text)| ==>
              var i := Origins(alph, key, n, text)[j];
              if text[i] in alph then Encrypt(alph, key, n, text)[j] in alph
              else Encrypt(alph, key, n, text)[j] == text[i]
    ensures forall i :: 0 <= i < |text| && text[i] !in alph ==> i in Origins(alph, key, n, text)
  {
    if text != [] {
      var m := |text| - 1;
      var before := text[..m];
      EncryptOrigins(alph, key, n, before);
      var o, out := Origins(alph, key, n, before), Encrypt(alph, key, n, before);
      var e := Emit(alph, key, n, before, text[m]);
      assert forall j :: 0 <= j < |o| ==> before[o[j]] == text[o[j]];
      assert |e| <= 1;
      assert e != [] ==> (if text[m] in alph then e[0] in alph else e[0] == text[m]);
      assert forall i :: 0 <= i < m ==> before[i] == text[i];
    }
  }

  /** A plaintext character outside the alphabet is appended unchanged and
      leaves the key cursor where it was: the next character is treated as
      if the passthrough character were not there. */
  lemma PassthroughKeepsKey(alph: seq<char>, key: seq<char>, n: int, text: seq<char>, c: char, d: char)
    requires n == |alph| && |key| > 0
    requires c !in alph
    ensures Encrypt(alph, key, n, text + [c]) == Encrypt(alph, key, n, text) + [c]
    ensures KeyCharAfter(alph, key, text + [c]) == KeyCharAfter(alph, key, text)
    ensures Emit(alph, key, n, text + [c], d) == Emit(alph, key, n, text, d)
  {
  }

  /** An alphabet character met while the key character is outside the
      alphabet produces nothing, and the key cursor still moves on. */
  lemma DropAdvancesKey(alph: seq<char>, key: seq<char>, n: int, text: seq<char>, c: char)
    requires n == |alph| && |key| > 0
    requires c in alph && KeyCharAfter(alph, key, text) !in alph
    ensures Encrypt(alph, key, n, text + [c]) == Encrypt(alph, key, n, text)
    ensures CountIn(alph, text + [c]) == CountIn(alph, text) + 1
  {
  }

  /** When both the plaintext character and its key character are in the
      alphabet, the output is the alphabet character at the sum of their
      positions modulo the alphabet length, and the key cursor moves on. */
  lemma SubstitutionIsVigenere(alph: seq<char>, key: seq<char>, n: int, text: seq<char>, c: char)
    requires n == |alph| && |key| > 0
    requires c in alph && KeyCharAfter(alph, key, text) in alph
    ensures Encrypt(alph, key, n, text + [c]) ==
            Encrypt(alph, key, n, text) + [alph[(IndexOf(alph, c) + IndexOf(alph, KeyCharAfter(alph, key, text))) % n]]
    ensures CountIn(alph, text + [c]) == CountIn(alph, text) + 1
  {
  }

  /** Worked example: with alphabet `abc` and key `ab` the key is reused
      cyclically, so `abc` encrypts to `acc`. */
  lemma ExampleCyclicKey()
    ensures Encrypt("abc", "ab", 3, "abc") == "acc"
  {
    assert "abc"[..2] == "ab" && "abc"[..2][..1] == "a" && "abc"[..2][..1][..0] == [];
  }

  /** Worked example: a passthrough character is copied, so `abz` encrypts
      to `acz`. */
  lemma ExamplePassthrough()
    ensures Encrypt("abc", "ab", 3, "abz") == "acz"
  {
    assert "abz"[..2] == "ab" && "ab"[..1] == "a" && "a"[..0] == [];
  }

  /** Worked example: in a five-letter alphabet 4 + 4 folds back to 3. */
  lemma ExampleFoldBack()
    ensures Encrypt("abcde", "e", 5, "e") == "d"
  {
    assert "e"[..0] == [];
  }
}
