# Vigenère encryption over a caller-supplied alphabet

This project models the core of a small command-line tool. The tool encrypts a plaintext with a key in a Vigenère-style
substitution, over an alphabet read from a file. It models three parts of `main.cpp`:

- **`get_encr_text`**, the cipher. It makes one pass over the plaintext and keeps a cyclic cursor into the key.
  - A plaintext character outside the alphabet is copied unchanged, and the cursor stays where it is.
  - An alphabet character whose key character is outside the alphabet produces nothing, and the cursor moves on.
  - Any other character becomes the alphabet character at `posC + posK`. When that sum reaches the alphabet length,
    it is folded back with `abs(sum - length)`.
- **`clear_enters`**, the normaliser. It lower-cases its text and then removes the `'\n'` characters one at a time.
- **The loaders** `get_alph`, `get_keys` and `get_text`, after their file has been read. Each refuses an empty file
  and normalises the rest. `get_alph` also sets the two program-wide variables `alph_length` and `isSpace`.

Modules:

- `Strings`: the two QString primitives used, first-occurrence `indexOf` and lower-case folding.
- `Normalizer`: `clear_enters` as a loop over a string value, and the function that specifies it.
- `Cipher`: `get_encr_text` as a loop with index cursors, and the reference function `Encrypt`. In `Encrypt`, the key
  character for a plaintext character is `key[k % |key|]`, where `k` counts the alphabet characters before it.
- `Loader`: the loaders, and a class `Globals` holding `alph_length` and `isSpace`. `Globals.Run` is the data flow of
  `main` from loading to encryption, without the I/O.

The cipher reads the alphabet length from the program-wide `alph_length`, not from the alphabet string. The model
passes it as a parameter `n` and requires `n == |alphabet|`, which `Globals.GetAlph` establishes.

`main` tests each loader's result with `x == NULL` (main.cpp:73, 81, 89). Comparing a QString with a null `char*`
compares it with the empty string, so the test holds for a refusal and for an empty normalised text alike. The loaders
themselves refuse only an empty file (main.cpp:192-195, 227-230, 270-273). An input of nothing but `'\n'` passes its
loader, and `main` then stops the run. The model keeps these two steps apart: the loader methods refuse only empty
content, and `Globals.Run` applies `main`'s test through the predicate `IsNull`.

## Model

| member | source | states |
|---|---|---|
| `Strings.IndexOf` | main.cpp:329-336 | The result is -1 exactly when the character does not occur. Otherwise it is the position of the character's first occurrence. |
| `Strings.ToLower` | main.cpp:300 | The folded text has the same length as the input. Each character is folded by `LowerChar`, which never yields an upper-case letter and changes nothing else. |
| `Strings.ToLowerFixed` | main.cpp:300 | Folding is the identity on text that holds no upper-case letter, so folding twice equals folding once. |
| `Normalizer.StripNewlinesConcat` | main.cpp:302-306 | Removing newlines distributes over concatenation. So it is the order-preserving filter that drops `'\n'`. |
| `Normalizer.ClearEnters` | main.cpp:299-307 | The loop of `remove` calls ends with no `'\n'` left. What remains is the lower-cased input with its `'\n'` removed, in the original order. |
| `Normalizer.NormalizedShape` | main.cpp:299-307 | Normalised text has no `'\n'` and no upper-case letter. Its length is the input's length minus the number of `'\n'` in the input. |
| `Normalizer.NormalizedIdempotent` | main.cpp:299-307 | Normalising twice gives the same result as normalising once. |
| `Cipher.CountInExtremes` | main.cpp:323-332 | The key cursor advances once per plaintext character when every character is in the alphabet. It never advances when none is. |
| `Cipher.FoldIndex` | main.cpp:341-346 | For `posC` and `posK` in `[0, n)`, the folded index lies in `[0, n)`. So `colm_alph.at` is in bounds. The index equals `(posC + posK) mod n`. |
| `Cipher.EncryptSnoc` | main.cpp:324-347 | Each further plaintext character appends its own output. The key cursor moves exactly when that character is in the alphabet. |
| `Cipher.EncryptText` | main.cpp:317-350 | The loop, with its reset-at-end and decrement-on-passthrough key cursor, returns exactly `Encrypt`. There, each character uses key character `key[k mod |key|]`, where `k` counts the alphabet characters before it. |
| `Cipher.EncryptLength` | main.cpp:319-347 | The output is at most as long as the plaintext. An empty plaintext gives an empty output. When every key character is in the alphabet, the output is exactly as long as the plaintext. |
| `Cipher.EncryptOrigins` | main.cpp:329-346 | Each output character comes from a distinct plaintext position, in increasing order. It is an alphabet character when that plaintext character is in the alphabet, and a verbatim copy otherwise. Every non-alphabet plaintext character appears in the output. |
| `Cipher.PassthroughKeepsKey` | main.cpp:325-333 | A non-alphabet character is appended unchanged. The key character consulted next is the same one as without it, and so is the next character's output. |
| `Cipher.DropAdvancesKey` | main.cpp:336-338 | An alphabet character whose key character is outside the alphabet adds nothing to the output. The key cursor still advances. |
| `Cipher.SubstitutionIsVigenere` | main.cpp:336-346 | When both characters are in the alphabet, the output character is `alph[(posC + posK) mod n]` and the key cursor advances. |
| `Cipher.ExampleCyclicKey` | main.cpp:323-346 | Worked case with alphabet `abc` and key `ab`. The key is reused from its start, so `abc` encrypts to `acc`. |
| `Cipher.ExamplePassthrough` | main.cpp:329-333 | Worked case with alphabet `abc` and key `ab`. The `z` is copied, so `abz` encrypts to `acz`. |
| `Cipher.ExampleFoldBack` | main.cpp:341-346 | Worked case with alphabet `abcde` and key `e`. 4 + 4 folds back to 3, so `e` encrypts to `d`. |
| `Loader.UntilNul` | main.cpp:247 | The QString built from the read buffer is the longest NUL-free prefix of the content. |
| `Loader.Loaded` | main.cpp:227-230 | A loader fails exactly on empty content. Otherwise its text is normalised: no `'\n'`, no upper-case letter, and unchanged by normalising again. |
| `Loader.GetKeys` | main.cpp:192-214 | Fails exactly on an empty file. Otherwise it returns the normalised key, which may be empty. |
| `Loader.NewlineKeyIsEmpty` | main.cpp:192-210 | A key file holding only `"\n"` passes the size check of `get_keys` and yields the empty key. `main` then refuses that key at main.cpp:81. |
| `Loader.IsNull` | main.cpp:73-95 | `main`'s `x == NULL` test holds for a loader's refusal and for an empty normalised text, since QString compares a null `char*` as the empty string. |
| `Loader.UsableIffNonEmpty` | main.cpp:72-95 | A loader together with `main`'s test refuses exactly the content whose part before the first NUL normalises to the empty string. So an empty file, or one of only `'\n'`, stops the run. |
| `Loader.GetText` | main.cpp:270-292 | Fails exactly on an empty file. Otherwise it returns the normalised plaintext, which may be empty. |
| `Loader.Globals.constructor` | main.cpp:26-27 | `alph_length` starts at 33 and `isSpace` starts false. |
| `Loader.Globals.GetAlph` | main.cpp:227-257 | An empty file fails and leaves both variables unchanged. Otherwise the normalised alphabet is returned, and `alph_length` becomes its length. `isSpace` becomes true when the alphabet holds `' '` and otherwise keeps its old value. |
| `Loader.Globals.Run` | main.cpp:72-102 | Fails exactly when an alphabet, key or plaintext is refused by its loader or is empty after normalisation (the `== NULL` tests). Otherwise the alphabet, key and plaintext are all non-empty, and the result is `Encrypt` of the loaded inputs with the recorded length. Whatever comes after `get_alph`, `alph_length` and `isSpace` end as it left them. |

## Left out

- `main`'s file handling: opening, closing and writing files, the output name `encryption.txt`, and the UTF-8 write. These are I/O. The loaders take the file content as an argument.
- The console echo of the key, text, alphabet and ciphertext, and the error messages. These are output only.
- `menu`: argument parsing with `getopt`/`strcpy`, and the help text. This is command-line plumbing.
- `stat`, `calloc`/`free` and `file.read`, with their failure paths. These are OS and memory plumbing. A loader model fails only on empty content.
- Decoding the read bytes into a QString. In the model a `char` stands for one `QChar`, a UTF-16 code unit. A Dafny `char` cannot hold a surrogate, so text outside the Basic Multilingual Plane is outside the model. In the source such a character is two `QChar`s: it counts twice in `alph_length`, and `get_encr_text` looks it up one unit at a time.
- `Strings.ToLower`: Qt's Unicode `toLower` is modelled as ASCII folding of `A`–`Z`. Qt's case tables are a foreign library.
- The unused counter `pos` in `get_encr_text` (main.cpp:322). It affects nothing.
- `clear_space` is declared at main.cpp:34 but never defined.
- `Cipher.EncryptText`: a passthrough step decrements the key iterator (main.cpp:332). At the key's start this forms a pointer before `key.begin()`, which C++ leaves undefined. The model treats it as the index -1, which the loop's increment brings back to 0.
