# Image scrambler: verified model of the permutation network

The scrambler hides an image by shuffling its pixels under a password and
restores it with the same password. A SHA-256 digest of the password (32
bytes) is expanded into a permutation of [0, 128) by drawing from a pool
without replacement (`extendKey`). That permutation shuffles a 128 x 128
identity matrix through an eleven-stage network (`doScramble`). Read row by
row, the shuffled matrix is the derived key, a permutation of [0, 16384)
(`generateKey`). The same network, keyed by the derived key, then runs over
the pixel grid: forward to scramble, backward to unscramble. Each network
stage is one of four kinds:

- a row scramble: rows are gathered or scattered through the key entries
  that name a row (`scramble`);
- a slant: row i is circularly shifted by i * cols / rows, truncated
  (`slant`, built on `rotate`);
- a clockwise quarter turn (`rotate_cw`);
- a counter-clockwise quarter turn (`rotate_ccw`).

`getOutputFile` derives the name of the written file.

The model has one module per part of `main.cpp`:

- `KeyExpansion` covers `bitRot` and `extendKey`.
- `RowRotation` covers `rotate`.
- `QuarterTurn` covers `rotate_cw`, `rotate_ccw` and `rotate_2d`.
- `Shear` covers `slant`.
- `RowScramble` covers `scramble`.
- `Network` covers `doScramble`, `generateKey` and the scramble/unscramble
  call in `main`.
- `OutputName` covers `getOutputFile`.

`Seqs` and `Grid` hold shared definitions: index ranges, permutations,
rectangular grids and their cell multisets.

Grids are `seq<seq<T>>` over a generic cell type, because the C++ vectors
are passed and returned by value. The `0` that `T(n, 0)` fills new rows with
is an explicit `zero: T` parameter. Each source function that works through
loops becomes a `method` with loop invariants. Its `ensures` ties the result
to a specification function, and the source's promises are proved as lemmas
about that function. `rotate_2d` and `doScramble` are straight-line
compositions, so they are functions.

Two behaviours of the code are worth stating outright:

- `rotate_cw` reads `array[rows-1-x][y]` (`main.cpp:102-103`), which
  `QuarterTurn.Clockwise` follows.
- Rows that no accepted key entry names are zero-filled (`main.cpp:150-151`),
  which `RowScramble.ScrambleBlankRows` states.

## Model

| member | source | states |
|---|---|---|
| KeyExpansion.BitRot | main.cpp:32-37 | for 0 <= bits < 8 the result is below 256 and is the 8-bit left rotation of the byte by bits |
| KeyExpansion.BitRotIsRotateLeft | main.cpp:32-37 | for every amount below 8, including the 0, 2, 4 and 6 extendKey uses, the result is the byte's 8-bit left rotation |
| KeyExpansion.Round | main.cpp:50-51 | one round yields one draw index per key byte, each in [0, 256) |
| KeyExpansion.Rounds | main.cpp:49-51 | the rounds rot, rot + 2, ... below 8 yield one draw index per key byte each, all in [0, 256); from round 0 that is 4 per key byte |
| KeyExpansion.Draw | main.cpp:51-53 | drawing without replacement yields one value per index |
| KeyExpansion.DrawFromPool | main.cpp:49-54 | the drawn values come from the pool, each at most as often as the pool holds it; drawing as many times as the pool is long yields the pool's multiset |
| KeyExpansion.ExtendedKey | main.cpp:39-57 | the extended key has 4 entries per key byte |
| KeyExpansion.ExtendedKeyIsPermutation | main.cpp:39-57 | the extended key holds distinct values below 128; for a 32-byte digest it is a permutation of [0, 128) |
| KeyExpansion.ExtendKey | main.cpp:39-57 | the erase/push_back loops produce exactly the extended key, and the pool is never empty when it is reduced modulo its size |
| RowRotation.Rotated | main.cpp:82-92 | the rotated row has the row's length and multiset |
| RowRotation.Normalized | main.cpp:84 | a non-negative shift is kept; a shift within [-len, len] becomes one within [0, len] |
| RowRotation.NormalizedResidue | main.cpp:84 | the normalised shift agrees with the original one modulo len, so it selects the same rotation |
| RowRotation.RotatedAt | main.cpp:84-89 | entry i of the rotated row is row[(i + n') mod len], n' the shift after negative shifts are normalised to len - abs(n) |
| RowRotation.RotateRoundTrip | main.cpp:82-92 | rotating by n and then by -n gives the row back, for every -len <= n <= len |
| RowRotation.Rotate | main.cpp:82-92 | the index loop fills the fresh row with exactly the rotated row |
| QuarterTurn.Clockwise | main.cpp:96-107 | a rows x cols grid turns into a cols x rows grid |
| QuarterTurn.Counterclockwise | main.cpp:111-122 | a rows x cols grid turns into a cols x rows grid |
| QuarterTurn.CounterclockwiseUndoesClockwise | main.cpp:96-122 | rotate_ccw(rotate_cw(A)) == A for every rectangular A |
| QuarterTurn.ClockwiseUndoesCounterclockwise | main.cpp:96-122 | rotate_cw(rotate_ccw(A)) == A for every rectangular A |
| QuarterTurn.ClockwiseCells | main.cpp:96-107 | the clockwise turn keeps the multiset of cells |
| QuarterTurn.CounterclockwiseCells | main.cpp:111-122 | the counter-clockwise turn keeps the multiset of cells |
| QuarterTurn.RotateCw | main.cpp:96-107 | the nested loops produce the C x R grid with out[y][x] = A[R-1-x][y] |
| QuarterTurn.RotateCcw | main.cpp:111-122 | the nested loops produce the C x R grid with out[y][x] = A[x][C-1-y] |
| QuarterTurn.Rotated2d | main.cpp:126-129 | either turn swaps the row and column counts |
| Shear.Roll | main.cpp:134-140 | the forward shift of row i is the truncated quotient of cols * i by rows, within [0, cols]; the backward shift is its negation |
| Shear.Slanted | main.cpp:133-145 | slanting keeps the grid's shape |
| Shear.SlantRoundTrip | main.cpp:133-145 | slant(slant(A, true), false) == A and slant(slant(A, false), true) == A |
| Shear.SlantCells | main.cpp:133-145 | slanting keeps the multiset of cells |
| Shear.Slant | main.cpp:133-145 | overwriting row after row yields the slanted grid |
| RowScramble.Accepted | main.cpp:154-155 | the entries scramble acts on are in [0, rows) and no more than the key has |
| RowScramble.Scatter | main.cpp:154-162 | backward, rows named by the accepted entries receive the input rows in order; the result keeps the row count and, with equal row lengths, the row length |
| RowScramble.Blank | main.cpp:150 | the blank row has the first row's length and holds only the zero element |
| RowScramble.AcceptedCount | main.cpp:154-155 | a value in [0, rows) is accepted as often as the key holds it, and no other value is accepted |
| RowScramble.AcceptedNext | main.cpp:154-155 | one more key entry extends the accepted entries exactly when it names a row |
| RowScramble.PermutationKeyCovers | main.cpp:154-155 | a key that is a permutation of [0, K) accepts a permutation of [0, n) for every n <= K |
| RowScramble.Scrambled | main.cpp:149-166 | scrambling keeps the grid's shape |
| RowScramble.ScatterAt | main.cpp:159-160 | backward, with distinct accepted entries, output row acc[j] is input row j |
| RowScramble.ScrambleBlankRows | main.cpp:150-151 | rows scramble does not write are zero-filled in both directions |
| RowScramble.ScrambleRoundTrip | main.cpp:149-166 | with a covering key, backward undoes forward and forward undoes backward |
| RowScramble.ScrambleCells | main.cpp:149-166 | with a covering key, scrambling either way keeps the multiset of cells |
| RowScramble.Scramble | main.cpp:149-166 | walking the key with the running counter produces exactly the scrambled grid |
| Network.Pass | main.cpp:171-173 | a scramble-slant-scramble pass keeps the shape |
| Network.PassRoundTrip | main.cpp:171-185 | the backward pass undoes the forward pass and vice versa |
| Network.PassCells | main.cpp:171-185 | a pass keeps the multiset of cells |
| Network.DoScramble | main.cpp:170-188 | the network returns a grid of the input's shape |
| Network.NetworkUndo | main.cpp:170-188 | the network in the opposite direction undoes the network in either direction |
| Network.NetworkRoundTrip | main.cpp:170-188 | doScramble(doScramble(A, k, true), k, false) == A and the reverse, for any non-empty rectangular A and a key covering both its row and its column count |
| Network.PermutationKeyRoundTrip | main.cpp:170-188 | with a key that is a permutation of [0, K), K at least the row and the column count, unscrambling undoes scrambling |
| Network.NetworkCells | main.cpp:170-188 | with such a key, the network keeps the multiset of cells |
| Network.Identity | main.cpp:195-201 | the key matrix is rectangular |
| Network.FlattenIdentity | main.cpp:195-208 | read row by row, the identity matrix is 0, 1, ..., rows * n - 1 |
| Network.ExtendedKeyCovers | main.cpp:191-204 | the extended 32-byte digest covers every row or column count up to 128 |
| Network.GeneratedKey | main.cpp:190-210 | the derived key has KSS * KSS = 16384 entries |
| Network.GeneratedKeyIsPermutation | main.cpp:190-210 | the derived key is a permutation of [0, 16384) |
| Network.FillIdentity | main.cpp:195-201 | the nested fill loops produce the identity matrix |
| Network.Concatenate | main.cpp:206-208 | the append loop produces the rows in order, one after the other |
| Network.GenerateKey | main.cpp:190-210 | generateKey returns the derived key, and it is a permutation of [0, 16384) |
| Network.ImageRoundTrip | main.cpp:299-302 | an image with 1 to 16384 rows and columns, scrambled and then unscrambled with the same password's key, comes back pixel for pixel |
| OutputName.FindLastOf | main.cpp:214 | the result is the last position holding a character of the set, or -1 when there is none |
| OutputName.Prefix | main.cpp:226 | substr(0, n) is the first n characters, or the whole string when n passes its end |
| OutputName.Stem | main.cpp:214-219 | the prefix is the name cut at its last '.', or the whole name when no '.' follows position 0 |
| OutputName.OutputFile | main.cpp:212-230 | the output name always ends in ".png"; scrambling yields the stem followed by ".scram.png" |
| OutputName.UnscrambleRoundTrip | main.cpp:224-226 | name + ".scram.png" unscrambles to name + ".unscram.png" |
| OutputName.NameRoundTrip | main.cpp:212-230 | the scrambled name of f unscrambles to the stem of f followed by ".unscram.png" |
| OutputName.CharacterSetSearch | main.cpp:224-226 | as written, "picture.jpg" unscrambles to "p.unscram.png" |
| OutputName.UnsignedWrap | main.cpp:226 | as written, "image.png" unscrambles to "image.png.unscram.png" |
| OutputName.UnscrambledName | main.cpp:224-228 | the unscramble branch always yields a name ending in ".png" |
| OutputName.WrappedCut | main.cpp:226 | as written, a found position from 1 to 8 wraps the length and keeps the whole name, for every name shorter than the wrapped length |
| OutputName.WrappedCutKeepsName | main.cpp:224-226 | as written, any name whose last suffix character sits at positions 1 to 8 unscrambles to the whole name followed by ".unscram.png" |
| OutputName.CutBeforeSuffixChar | main.cpp:224-226 | as written, any name whose last suffix character sits at position p >= 9 unscrambles to its first p - 9 characters followed by ".unscram.png" |
| OutputName.NoSuffixCharFallsBack | main.cpp:224-228 | as written, a name with no suffix character after position 0 unscrambles to its stem followed by ".png" |
| OutputName.IntendedOutputFile | main.cpp:212-230 | the corrected naming always ends in ".png" and scrambles exactly as the code does |
| OutputName.IntendedNames | main.cpp:221-228 | corrected: ".scram.png" becomes ".unscram.png", and any other name becomes its stem followed by ".png" |
| OutputName.IntendedAgreesOnScrambledNames | main.cpp:224-226 | the correction changes nothing for names that end in ".scram.png" |
| OutputName.IntendedOnDiscrepancies | main.cpp:228 | corrected: "picture.jpg" becomes "picture.png" and "image.png" becomes "image.png" |

## Left out

- `sha256Key` (main.cpp:17-30) computes SHA-256 (FIPS 180-4) through OpenSSL. It is not modelled: `GenerateKey` and `ImageRoundTrip` take the 32-byte digest as a parameter.
- `toArray` and `toImage` (main.cpp:59-78) convert OpenCV matrices. They are not modelled: the network works on a generic cell type.
- `main` (main.cpp:232-310) is not modelled. It does argument parsing, the `SCRAMBLE_PASSWORD` lookup, image reading and writing, and console output. Its keyed network call is stated by `Network.ImageRoundTrip`.
- Shear.Roll: computes the exact truncated quotient (cols * i) / rows, where the source computes `diff * i` in single precision. The two differ on some ordinary sizes: with 14 rows and 62 columns, row 7 gets 30 in the source and 31 here, so the model's scrambled image differs from the program's for such grids. The round trip does not depend on this, because IEEE negation is exact and truncation is symmetric, so the backward shift is the negation of the forward shift either way. The 128 x 128 key matrix is shifted exactly as modelled, because `diff` is exactly 1.0 there.
- OutputName.OutputFile: names are sequences of characters, while `std::string` counts bytes. The cut at main.cpp:226 counts positions, so the result differs when multi-byte (UTF-8) characters precede the found character: unscrambling "日本.jpg" gives ".unscram.png" in the source (the 'g' is byte 9) but "日本.jpg.unscram.png" here (the 'g' is character 5). Names of single-byte characters are modelled exactly. `WrappedCut` and `WrappedCutKeepsName` also assume the name is shorter than the wrapped length, as every `std::string` is.
- Integer widths: counts and positions are unbounded here, while the source holds them in a 32-bit `int`. The `size_t` subtraction in `getOutputFile` is the one wrap written out, and `npos` is modelled as -1.
- RowScramble.Scrambled: requires no more accepted key entries than rows. With more, forward writes `out[i]` past the end of `out` (main.cpp:158), and backward reads `array[i]` past the end of the input (main.cpp:160); both are undefined behaviour.
- RowRotation.Rotated: `rotate` is modelled for shifts n >= -len only, the range `slant` produces. Below -len the normalised shift at main.cpp:84 is negative, and `(i + n) % row.size()` converts it to `size_t`, which is not a rotation (len 3, n = -5: offset 2 at index 0, where a rotation gives 1). No caller reaches it.
- Network.DoScramble: requires a non-empty grid with non-empty rows. The source indexes `array[0]` of the grid and of its turned copy.
- Shear.Slanted: requires a rectangular grid, which is all the network produces. On ragged rows the source shifts each row by an amount computed from row 0's length.
- KeyExpansion.ExtendKey: its `ensures` ties the result to `ExtendedKey`. The permutation property is stated by `ExtendedKeyIsPermutation` rather than repeated in the method.
- The pool erase and the in-place row overwrites of `slant` are modelled as sequence updates. The vectors are local copies, so no aliasing is lost.

## Findings

| source | as written | input that shows it | evidently intended | confidence | as-written member | corrected member |
|---|---|---|---|---|---|---|
| main.cpp:224-226 | `find_last_of(suffix)` finds the last character from the set ".scrampng", not the suffix, and the name is cut 9 characters before it | unscrambling "picture.jpg" writes "p.unscram.png" | a name without the ".scram.png" suffix becomes its stem followed by ".png", here "picture.png" | high, not executed | OutputName.CharacterSetSearch | OutputName.IntendedOutputFile |
| main.cpp:226 | `scramIdx - (suffix.size() - 1)` is computed in `size_t` and wraps when that character sits before position 9, so `substr` keeps the whole name | unscrambling "image.png" writes "image.png.unscram.png" | the stem followed by ".png", as the fallback on main.cpp:228 gives | medium, not executed | OutputName.UnsignedWrap | OutputName.IntendedOutputFile |
