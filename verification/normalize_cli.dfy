/**
 * The command-line front end: the three translator chains it builds, and
 * the per-character pass that maps the input text through the first of
 * them. Reading and writing files is not modelled; text is a sequence of
 * Unicode scalar values (`seq<char>`).
 */
module NormalizeCli {
  import opened Rust
  import opened Translators

  /** Swaps the case of ASCII letters (`test_translator`). */
  const TestTranslator: seq<Rule> := [
    Range('a', 'A', 26),
    Range('A', 'a', 26)
  ]

  /** A Caesar cipher with a right rotation of one (`caesar_translator`). */
  const CaesarTranslator: seq<Rule> := [
    Range('a', 'b', 25),
    Range('z', 'a', 1),
    Range('A', 'B', 25),
    Range('Z', 'A', 1)
  ]

  /** Mathematical Alphanumeric Symbols to ASCII letters (`mathematical_an_translator`). */
  const MathematicalAnTranslator: seq<Rule> := [
    AsciiFilter,
    Multirange('\U{1D400}', 'A', 26, 52, 5),
    Multirange('\U{1D41A}', 'a', 26, 52, 5),
    Multirange('\U{1D56C}', 'A', 26, 52, 5),
    Multirange('\U{1D586}', 'a', 26, 52, 5)
  ]

  /** `chars().map(|a| translate(a, chain)).collect()`: one output character per input character. */
  function TranslateText(m: Mode, text: seq<char>, chain: seq<Translator>): (r: Outcome<seq<char>>)
    ensures r.Ok? <==> forall i :: 0 <= i < |text| ==> Translate(m, text[i], chain).Ok?
    ensures r.Ok? ==> |r.value| == |text|
    ensures r.Ok? ==> forall i :: 0 <= i < |text| ==> Translate(m, text[i], chain) == Ok(r.value[i])
  {
    if text == [] then Ok([])
    else
      var c :- Translate(m, text[0], chain);
      var rest :- TranslateText(m, text[1..], chain);
      assert forall i :: 1 <= i < |text| ==> text[i] == text[1..][i - 1];
      Ok([c] + rest)
  }

  /** `main` without its I/O: build the three chains in order, then map the input through `test_translator`. */
  function Normalize(m: Mode, input: seq<char>): (r: Outcome<seq<char>>)
    ensures r.Ok? ==> BuildChain(m, CaesarTranslator).Ok? && BuildChain(m, MathematicalAnTranslator).Ok?
    ensures r.Ok? ==> BuildChain(m, TestTranslator).Ok? && |r.value| == |input|
    ensures r.Ok? ==> forall i :: 0 <= i < |input| ==>
              Translate(m, input[i], BuildChain(m, TestTranslator).value) == Ok(r.value[i])
  {
    var test :- BuildChain(m, TestTranslator);
    var caesar :- BuildChain(m, CaesarTranslator);
    var math :- BuildChain(m, MathematicalAnTranslator);
    TranslateText(m, input, test)
  }

  // ---------------------------------------------------------------------
  // Reference definitions of what the comments say each chain does

  /** ASCII case swap. */
  function SwapCase(c: char): char {
    if 'a' <= c <= 'z' then (Code(c) - 32) as char
    else if 'A' <= c <= 'Z' then (Code(c) + 32) as char
    else c
  }

  /** Rotate ASCII letters right by one, wrapping 'z' to 'a' and 'Z' to 'A'. */
  function RotateRight(c: char): char {
    if 'a' <= c < 'z' || 'A' <= c < 'Z' then (Code(c) + 1) as char
    else if c == 'z' then 'a'
    else if c == 'Z' then 'A'
    else c
  }

  /**
   * What `mathematical_an_translator` does as written, block by block: ASCII
   * is kept; each multirange claims its whole span of 260 codepoints, so the
   * two lowercase rules only see the tail of their span not already claimed.
   */
  function MathematicalAn(c: char): char {
    var x := Code(c);
    if x < 128 then c
    else if 0x1D400 <= x <= 0x1D503 then Letter(0x41, 0x1D400, x)
    else if 0x1D504 <= x <= 0x1D51D then Letter(0x61, 0x1D41A, x)
    else if 0x1D56C <= x <= 0x1D66F then Letter(0x41, 0x1D56C, x)
    else if 0x1D670 <= x <= 0x1D689 then Letter(0x61, 0x1D586, x)
    else c
  }

  /** The character `t + (x - s) mod 52`: the answer of a multirange of slice 52 folding onto `t`. */
  function Letter(t: int, s: int, x: int): char
    requires 0 <= t <= 0x61 && s <= x
  {
    (t + (x - s) % 52) as char
  }

  // ---------------------------------------------------------------------
  // test_translator

  /** In a debug build `range_translation('A', 'a', 26)` underflows at `s - t`: building the chain panics. */
  lemma TestTranslatorPanicsChecked()
    ensures BuildChain(Checked, TestTranslator) == Panicked(Overflow)
  {
    assert Build(Checked, TestTranslator[0]).Ok?;
  }

  lemma TestTranslatorBuilt()
    ensures BuildChain(Wrapping, TestTranslator) == Ok([RangeFn(0x61, 26, 32), RangeFn(0x41, 26, MODULUS - 32)])
  {
    assert Build(Wrapping, TestTranslator[0]) == Ok(RangeFn(0x61, 26, 32));
    assert Build(Wrapping, TestTranslator[1]) == Ok(RangeFn(0x41, 26, MODULUS - 32));
    BuildChainOf(Wrapping, TestTranslator, [RangeFn(0x61, 26, 32), RangeFn(0x41, 26, MODULUS - 32)]);
  }

  /** In a release build `test_translator` swaps the case of every ASCII letter and keeps every other character. */
  lemma TestTranslatorSwapsCase(c: char)
    ensures BuildChain(Wrapping, TestTranslator).Ok?
    ensures Translate(Wrapping, c, BuildChain(Wrapping, TestTranslator).value) == Ok(SwapCase(c))
  {
    TestTranslatorBuilt();
    var chain := BuildChain(Wrapping, TestTranslator).value;
    var x := Code(c);
    if 'a' <= c <= 'z' {
      TranslatePicksFirst(Wrapping, c, chain, 0, x - 32);
    } else if 'A' <= c <= 'Z' {
      TranslatePicksFirst(Wrapping, c, chain, 1, x + 32);
    } else {
      TranslateIdentity(Wrapping, c, chain);
    }
  }

  // ---------------------------------------------------------------------
  // caesar_translator

  /** `range_translation('a', 'b', 25)` underflows too: in a debug build the Caesar chain never gets built. */
  lemma CaesarPanicsChecked()
    ensures BuildChain(Checked, CaesarTranslator) == Panicked(Overflow)
  {
  }

  /** `caesar_translator` once built in a release build: offsets `s - t` modulo 2^32. */
  const CaesarChain: seq<Translator> := [
    RangeFn(0x61, 25, MODULUS - 1),
    RangeFn(0x7A, 1, 25),
    RangeFn(0x41, 25, MODULUS - 1),
    RangeFn(0x5A, 1, 25)
  ]

  lemma CaesarBuilt()
    ensures BuildChain(Wrapping, CaesarTranslator) == Ok(CaesarChain)
  {
    assert Build(Wrapping, CaesarTranslator[0]) == Ok(CaesarChain[0]);
    assert Build(Wrapping, CaesarTranslator[1]) == Ok(CaesarChain[1]);
    assert Build(Wrapping, CaesarTranslator[2]) == Ok(CaesarChain[2]);
    assert Build(Wrapping, CaesarTranslator[3]) == Ok(CaesarChain[3]);
    BuildChainOf(Wrapping, CaesarTranslator, CaesarChain);
  }

  /** One of the Caesar chain's range translators, in a release build: its block is a few ASCII letters. */
  lemma CaesarRule(k: nat, ord: u32)
    requires k < |CaesarChain|
    ensures
      var tr := CaesarChain[k];
      Apply(Wrapping, tr, ord) == Ok(if tr.s <= ord <= tr.s + tr.size - 1 then Some(Wrap(ord - tr.offset)) else None)
  {
    var tr := CaesarChain[k];
    assert tr.RangeFn? && 1 <= tr.size && tr.s + tr.size <= 0x80;
  }

  /** A letter in the block of rule `k` and of no earlier rule is rotated by that rule. */
  lemma CaesarPicks(c: char, k: nat, x: u32)
    requires k < |CaesarChain|
    requires CaesarChain[k].s <= Code(c) <= CaesarChain[k].s + CaesarChain[k].size - 1
    requires forall j :: 0 <= j < k ==> !(CaesarChain[j].s <= Code(c) <= CaesarChain[j].s + CaesarChain[j].size - 1)
    requires x == Wrap(Code(c) - CaesarChain[k].offset)
    ensures Translate(Wrapping, c, CaesarChain) == Ok(if IsScalar(x) then x as char else c)
  {
    forall j | 0 <= j < k
      ensures Apply(Wrapping, CaesarChain[j], Code(c)) == Ok(None)
    {
      CaesarRule(j, Code(c));
    }
    CaesarRule(k, Code(c));
    TranslatePicksFirst(Wrapping, c, CaesarChain, k, x);
  }

  /** A character outside both letter blocks comes back unchanged. */
  lemma CaesarKeeps(c: char)
    requires !('a' <= c <= 'z' || 'A' <= c <= 'Z')
    ensures Translate(Wrapping, c, CaesarChain) == Ok(c)
  {
    forall j | 0 <= j < |CaesarChain|
      ensures Apply(Wrapping, CaesarChain[j], Code(c)) == Ok(None)
    {
      CaesarRule(j, Code(c));
    }
    TranslateIdentity(Wrapping, c, CaesarChain);
  }

  /** The built chain agrees with `RotateRight` on every character, one block at a time. */
  lemma CaesarChainRotates(c: char)
    ensures Translate(Wrapping, c, CaesarChain) == Ok(RotateRight(c))
  {
    var x := Code(c);
    if 'a' <= c < 'z' {
      ModUnique(x - (MODULUS - 1), MODULUS, -1, x + 1);
      CaesarPicks(c, 0, x + 1);
    } else if c == 'z' {
      CaesarPicks(c, 1, 0x61);
    } else if 'A' <= c < 'Z' {
      ModUnique(x - (MODULUS - 1), MODULUS, -1, x + 1);
      CaesarPicks(c, 2, x + 1);
    } else if c == 'Z' {
      CaesarPicks(c, 3, 0x41);
    } else {
      CaesarKeeps(c);
    }
  }

  /** In a release build the Caesar chain rotates every ASCII letter right by one and keeps everything else. */
  lemma CaesarRotates(c: char)
    ensures BuildChain(Wrapping, CaesarTranslator).Ok?
    ensures Translate(Wrapping, c, BuildChain(Wrapping, CaesarTranslator).value) == Ok(RotateRight(c))
  {
    CaesarBuilt();
    CaesarChainRotates(c);
  }

  // ---------------------------------------------------------------------
  // mathematical_an_translator

  /** One of the chain's multiranges (`size` 26, `slice` 52, `iters` 5): it claims its whole span, in either build. */
  lemma MathRule(m: Mode, s: u32, t: u32, ord: u32)
    requires 0x1D400 <= s <= 0x1D586 && t <= 0x61
    ensures Apply(m, MultirangeFn(s, t, 26, 52, 5), ord)
         == Ok(if s <= ord <= s + 259 then Some(t + (ord - s) % 52) else None)
  {
  }

  /** `mathematical_an_translator` once built. */
  const MathChain: seq<Translator> := [
    AsciiFn(128),
    MultirangeFn(0x1D400, 0x41, 26, 52, 5),
    MultirangeFn(0x1D41A, 0x61, 26, 52, 5),
    MultirangeFn(0x1D56C, 0x41, 26, 52, 5),
    MultirangeFn(0x1D586, 0x61, 26, 52, 5)
  ]

  lemma MathBuilt(m: Mode)
    ensures BuildChain(m, MathematicalAnTranslator) == Ok(MathChain)
  {
    BuildChainOf(m, MathematicalAnTranslator, MathChain);
  }

  /** Every entry after the filter is one of the chain's multiranges. */
  lemma MathShape(k: nat)
    requires 1 <= k < |MathChain|
    ensures MathChain[k] == MultirangeFn(MathChain[k].s, MathChain[k].t, 26, 52, 5)
    ensures 0x1D400 <= MathChain[k].s <= 0x1D586 && MathChain[k].t <= 0x61
  {
  }

  /** A codepoint of the span of multirange `k` and of no earlier one gets that rule's answer. */
  lemma MathPicks(m: Mode, c: char, k: nat)
    requires 1 <= k < |MathChain|
    requires MathChain[k].s <= Code(c) <= MathChain[k].s + 259
    requires forall j :: 1 <= j < k ==> !(MathChain[j].s <= Code(c) <= MathChain[j].s + 259)
    ensures MathChain[k].t <= 0x61
    ensures Translate(m, c, MathChain) == Ok(Letter(MathChain[k].t, MathChain[k].s, Code(c)))
  {
    var x := Code(c);
    forall j | 0 <= j < k
      ensures Apply(m, MathChain[j], x) == Ok(None)
    {
      if j > 0 {
        MathShape(j);
        MathRule(m, MathChain[j].s, MathChain[j].t, x);
      }
    }
    MathShape(k);
    var s, t := MathChain[k].s, MathChain[k].t;
    MathRule(m, s, t, x);
    TranslatePicksFirst(m, c, MathChain, k, t + (x - s) % 52);
  }

  /** A codepoint outside ASCII and outside every multirange span comes back unchanged. */
  lemma MathKeeps(m: Mode, c: char)
    requires 128 <= Code(c)
    requires forall j :: 1 <= j < |MathChain| ==> !(MathChain[j].s <= Code(c) <= MathChain[j].s + 259)
    ensures Translate(m, c, MathChain) == Ok(c)
  {
    var x := Code(c);
    forall j | 0 <= j < |MathChain|
      ensures Apply(m, MathChain[j], x) == Ok(None)
    {
      if j > 0 {
        MathShape(j);
        MathRule(m, MathChain[j].s, MathChain[j].t, x);
      }
    }
    TranslateIdentity(m, c, MathChain);
  }

  /** The built chain agrees with `MathematicalAn` on every character, one block at a time. */
  lemma MathChainAgrees(m: Mode, c: char)
    ensures Translate(m, c, MathChain) == Ok(MathematicalAn(c))
  {
    var x := Code(c);
    if x < 128 {
      assert MathChain == [AsciiFilterTranslation()] + MathChain[1..];
      AsciiHeadedChain(m, c, MathChain[1..]);
    } else if 0x1D400 <= x <= 0x1D503 {
      MathPicks(m, c, 1);
    } else if 0x1D504 <= x <= 0x1D51D {
      MathPicks(m, c, 2);
    } else if 0x1D56C <= x <= 0x1D66F {
      MathPicks(m, c, 3);
    } else if 0x1D670 <= x <= 0x1D689 {
      MathPicks(m, c, 4);
    } else {
      MathKeeps(m, c);
    }
  }

  /**
   * `mathematical_an_translator` as written, in either build: it never
   * panics and maps every character as `MathematicalAn` says.
   */
  lemma MathematicalAnTranslates(m: Mode, c: char)
    ensures BuildChain(m, MathematicalAnTranslator).Ok?
    ensures Translate(m, c, BuildChain(m, MathematicalAnTranslator).value) == Ok(MathematicalAn(c))
  {
    MathBuilt(m);
    MathChainAgrees(m, c);
  }

  /**
   * The comments' promises that do hold: ASCII passes unchanged and the bold
   * capitals U+1D400..U+1D419 become 'A'..'Z'. The one that does not: bold
   * small a, U+1D41A, becomes '[' rather than 'a'.
   */
  lemma MathematicalAnExamples(c: char, i: nat)
    requires i < 26
    ensures Code(c) < 128 ==> MathematicalAn(c) == c
    ensures MathematicalAn((0x1D400 + i) as char) == (0x41 + i) as char
    ensures MathematicalAn('\U{1D41A}') == '['
  {
  }

  /**
   * On [U+1D400, U+1D503] the uppercase rule at index 1 always answers, so
   * the lowercase rule at index 2, whose span starts inside it, is never
   * consulted there.
   */
  lemma LowercaseRuleShadowed(m: Mode, ord: u32)
    requires 0x1D400 <= ord <= 0x1D503
    ensures BuildChain(m, MathematicalAnTranslator).Ok?
    ensures
      var chain := BuildChain(m, MathematicalAnTranslator).value;
      && Apply(m, chain[0], ord) == Ok(None)
      && Apply(m, chain[1], ord).Ok? && Apply(m, chain[1], ord).value.Some?
      && FirstMatch(m, chain, ord) == FirstMatch(m, chain[..2], ord)
  {
    MathBuilt(m);
    MathRule(m, 0x1D400, 0x41, ord);
    FirstMatchIsFirst(m, MathChain, ord, 1);
  }

  // ---------------------------------------------------------------------
  // The whole pass

  /** A debug build panics before reading any input, whatever the input is. */
  lemma NormalizePanicsChecked(input: seq<char>)
    ensures Normalize(Checked, input) == Panicked(Overflow)
  {
    TestTranslatorPanicsChecked();
  }

  /** A release build swaps the case of every ASCII letter of the input, position by position. */
  lemma NormalizeSwapsCase(input: seq<char>)
    ensures Normalize(Wrapping, input).Ok?
    ensures |Normalize(Wrapping, input).value| == |input|
    ensures forall i :: 0 <= i < |input| ==> Normalize(Wrapping, input).value[i] == SwapCase(input[i])
  {
    TestTranslatorBuilt();
    CaesarBuilt();
    MathBuilt(Wrapping);
    var chain := BuildChain(Wrapping, TestTranslator).value;
    forall i | 0 <= i < |input|
      ensures Translate(Wrapping, input[i], chain) == Ok(SwapCase(input[i]))
    {
      TestTranslatorSwapsCase(input[i]);
    }
  }

  lemma NormalizeHelloWorld()
    ensures Normalize(Wrapping, "Hello, World!") == Ok("hELLO, wORLD!")
  {
    var input, expected := "Hello, World!", "hELLO, wORLD!";
    NormalizeSwapsCase(input);
    HelloWorldSwapped();
    var r := Normalize(Wrapping, input).value;
    assert r == expected;
  }

  /** The example's case swap, character by character. */
  lemma HelloWorldSwapped()
    ensures forall i :: 0 <= i < 13 ==> SwapCase("Hello, World!"[i]) == "hELLO, wORLD!"[i]
  {
    var input, expected := "Hello, World!", "hELLO, wORLD!";
    forall i | 0 <= i < 13
      ensures SwapCase(input[i]) == expected[i]
    {
    }
  }
}
