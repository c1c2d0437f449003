/**
 * `getOutputFile`: the name the result is written under. Scrambling replaces
 * the extension by ".scram.png"; unscrambling is meant to turn ".scram.png"
 * into ".unscram.png".
 */
module OutputName {

  const ScramSuffix: string := ".scram.png"
  const UnscramSuffix: string := ".unscram.png"
  const PngSuffix: string := ".png"

  /** One more than the largest size_t value: unsigned arithmetic wraps modulo this. */
  const SizeRange: int := 0x1_0000_0000_0000_0000

  /** The characters of ScramSuffix, the set the unscramble branch searches for. */
  function SuffixChars(): (r: set<char>)
    ensures forall i :: 0 <= i < |ScramSuffix| ==> ScramSuffix[i] in r
  {
    set c | c in ScramSuffix
  }

  /**
   * std::string::find_last_of: the last position holding any character of the
   * set, or -1 (npos as an int) when there is none.
   */
  function FindLastOf(s: string, chars: set<char>): (r: int)
    ensures -1 <= r < |s|
    ensures r >= 0 ==> s[r] in chars
    ensures forall i :: r < i < |s| ==> s[i] !in chars
  {
    if s == [] then -1
    else if s[|s| - 1] in chars then |s| - 1
    else FindLastOf(s[..|s| - 1], chars)
  }

  /** std::string::substr(0, n): the first n characters, or all of s when n reaches past its end. */
  function Prefix(s: string, n: nat): (r: string)
    ensures r <= s
    ensures |r| == if n <= |s| then n else |s|
  {
    if n <= |s| then s[..n] else s
  }

  /**
   * The filename cut at its last '.', kept whole when it has no '.' or its only
   * '.' after position 0 is missing (a '.' at position 0 does not count).
   */
  function Stem(filename: string): (p: string)
    ensures p <= filename
    ensures |p| < |filename| ==> 0 < |p| && filename[|p|] == '.' && forall i :: |p| < i < |filename| ==> filename[i] != '.'
    ensures |p| == |filename| ==> forall i :: 0 < i < |filename| ==> filename[i] != '.'
  {
    var idx := FindLastOf(filename, {'.'});
    if idx > 0 then filename[..idx] else filename
  }

  /**
   * getOutputFile as written: unscrambling searches for the last character of
   * the set ".scrampng" rather than for the suffix, and subtracts 9 in size_t
   * arithmetic, which wraps when that position is below 9.
   */
  function OutputFile(filename: string, scramble: bool): (r: string)
    ensures EndsWith(r, PngSuffix)
    ensures scramble ==> EndsWith(r, ScramSuffix) && r[..|r| - |ScramSuffix|] == Stem(filename)
  {
    if scramble then Stem(filename) + ScramSuffix
    else UnscrambledName(filename, FindLastOf(filename, SuffixChars()))
  }

  /** The unscramble branch of getOutputFile, given the position find_last_of returned. */
  function UnscrambledName(filename: string, scramIdx: int): (r: string)
    ensures EndsWith(r, PngSuffix)
  {
    if scramIdx > 0 then
      var diff := scramIdx - (|ScramSuffix| - 1);
      var count := if diff < 0 then diff + SizeRange else diff;
      Prefix(filename, count) + UnscramSuffix
    else Stem(filename) + PngSuffix
  }

  /** A name that ends in ".scram.png" unscrambles to the same name ending in ".unscram.png". */
  lemma UnscrambleRoundTrip(name: string)
    ensures OutputFile(name + ScramSuffix, false) == name + UnscramSuffix
  {
    var f := name + ScramSuffix;
    assert f[|f| - 1] == 'g' && 'g' in SuffixChars();
    assert FindLastOf(f, SuffixChars()) == |f| - 1;
    assert f[..|name|] == name;
  }

  /** Scrambling and then unscrambling a name gives its stem followed by ".unscram.png". */
  lemma NameRoundTrip(filename: string)
    ensures OutputFile(OutputFile(filename, true), false) == Stem(filename) + UnscramSuffix
  {
    UnscrambleRoundTrip(Stem(filename));
  }

  /** As written, "picture.jpg" loses all but its first letter: its last character of the set is the 'g' at 10. */
  lemma CharacterSetSearch()
    ensures OutputFile("picture.jpg", false) == "p.unscram.png"
  {
    var f := "picture.jpg";
    assert f[10] == 'g' && 'g' in SuffixChars();
    assert FindLastOf(f, SuffixChars()) == 10;
    assert Prefix(f, 1) == "p";
  }

  /** As written, a last suffix character before position 9 wraps the length and keeps the whole name. */
  lemma UnsignedWrap()
    ensures OutputFile("image.png", false) == "image.png.unscram.png"
  {
    var f := "image.png";
    assert f[8] == 'g' && 'g' in SuffixChars();
    assert FindLastOf(f, SuffixChars()) == 8;
  }

  /**
   * As written, a last suffix character at positions 1 to 8 wraps the length
   * past the end of the name, so the whole name is kept. Any name the source
   * can hold is shorter than the wrapped length.
   */
  lemma WrappedCutKeepsName(f: string)
    requires 0 < FindLastOf(f, SuffixChars()) < |ScramSuffix| - 1
    requires |f| < SizeRange - |ScramSuffix|
    ensures OutputFile(f, false) == f + UnscramSuffix
  {
    WrappedCut(f, FindLastOf(f, SuffixChars()));
  }

  /** The unscramble branch keeps the whole name when the subtraction wraps. */
  lemma WrappedCut(f: string, p: int)
    requires 0 < p < |ScramSuffix| - 1 && |f| < SizeRange - |ScramSuffix|
    ensures UnscrambledName(f, p) == f + UnscramSuffix
  {
    assert Prefix(f, p - (|ScramSuffix| - 1) + SizeRange) == f;
  }

  /** As written, a last suffix character at position 9 or later cuts the name 9 characters before it. */
  lemma CutBeforeSuffixChar(f: string)
    requires FindLastOf(f, SuffixChars()) >= |ScramSuffix| - 1
    ensures OutputFile(f, false) == f[..FindLastOf(f, SuffixChars()) - (|ScramSuffix| - 1)] + UnscramSuffix
  {
    var p := FindLastOf(f, SuffixChars());
    assert Prefix(f, p - (|ScramSuffix| - 1)) == f[..p - (|ScramSuffix| - 1)];
  }

  /** As written, a name whose only suffix characters sit at position 0, or that has none, gets its stem and ".png". */
  lemma NoSuffixCharFallsBack(f: string)
    requires FindLastOf(f, SuffixChars()) <= 0
    ensures OutputFile(f, false) == Stem(f) + PngSuffix
  {
  }

  /** s ends with suffix. */
  predicate EndsWith(s: string, suffix: string) {
    |suffix| <= |s| && s[|s| - |suffix|..] == suffix
  }

  /**
   * The naming evidently intended: unscrambling strips ".scram.png" when the
   * name ends with it and otherwise gives the stem followed by ".png".
   */
  function IntendedOutputFile(filename: string, scramble: bool): (r: string)
    ensures EndsWith(r, PngSuffix)
    ensures scramble ==> r == OutputFile(filename, true)
  {
    var prefix := Stem(filename);
    if scramble then prefix + ScramSuffix
    else if EndsWith(filename, ScramSuffix) then filename[..|filename| - |ScramSuffix|] + UnscramSuffix
    else prefix + PngSuffix
  }

  /** The intended naming undoes the scramble suffix, and marks every other name by its stem and ".png". */
  lemma IntendedNames(name: string, filename: string)
    ensures IntendedOutputFile(name + ScramSuffix, false) == name + UnscramSuffix
    ensures IntendedOutputFile(IntendedOutputFile(filename, true), false) == Stem(filename) + UnscramSuffix
    ensures !EndsWith(filename, ScramSuffix) ==> IntendedOutputFile(filename, false) == Stem(filename) + PngSuffix
  {
    var f := name + ScramSuffix;
    assert EndsWith(f, ScramSuffix) && f[..|name|] == name;
    var g := Stem(filename) + ScramSuffix;
    assert EndsWith(g, ScramSuffix) && g[..|Stem(filename)|] == Stem(filename);
  }

  /** On every name ending in ".scram.png" the intended naming agrees with the code as written. */
  lemma IntendedAgreesOnScrambledNames(filename: string)
    requires EndsWith(filename, ScramSuffix)
    ensures IntendedOutputFile(filename, false) == OutputFile(filename, false)
  {
    var name := filename[..|filename| - |ScramSuffix|];
    assert filename == name + ScramSuffix;
    UnscrambleRoundTrip(name);
    IntendedNames(name, filename);
  }

  /** The intended naming on the two inputs that show the discrepancy. */
  lemma IntendedOnDiscrepancies()
    ensures IntendedOutputFile("picture.jpg", false) == "picture.png"
    ensures IntendedOutputFile("image.png", false) == "image.png"
  {
    var f, g := "picture.jpg", "image.png";
    assert !EndsWith(f, ScramSuffix) && !EndsWith(g, ScramSuffix);
    assert f[7] == '.' && f[8] != '.' && f[9] != '.' && f[10] != '.';
    assert FindLastOf(f, {'.'}) == 7;
    assert g[5] == '.' && g[6] != '.' && g[7] != '.' && g[8] != '.';
    assert FindLastOf(g, {'.'}) == 5;
  }
}
