# utf-normalize translator engine, in Dafny

utf-normalize replaces "confusable" Unicode characters with plain equivalents,
one codepoint for one codepoint. Its core is a set of translator generators:
each builds a closure `u32 -> Option<u32>` from a few constants.

- a range translator shifts a contiguous block of codepoints onto another block;
- a multirange translator folds several equally spaced copies of a block onto one block, using `%`;
- the ASCII filter passes codepoints below 128 through as a match;
- a lookup translator is declared but not implemented.

A chain evaluator (`translate`) asks the translators of a chain in order. It
keeps the first `Some`, falls back to the input character, and gives the input
back when the answer is not a Unicode scalar value. The command-line front
end builds three chains and maps its input text, character by character,
through the first one.

This project models that core:

- `rust.dfy` (module `Rust`): `u32` arithmetic in the two Rust build modes
  (`Checked`: a debug build panics on overflow; `Wrapping`: a release build
  wraps modulo 2^32), panics as an `Outcome`, `Option`, and
  `char::from_u32`. Dafny's `char` is a Unicode scalar value, as Rust's is.
- `translators.dfy` (module `Translators`): each closure is the datatype of
  the values it captured (`Translator`). `Apply` is the closure body.
  `RangeTranslation`, `MultirangeTranslation`, `AsciiFilterTranslation` and
  `LookupTranslation` are the generators. `Rule` with `Build`/`BuildChain`
  stands for an array literal of generator calls. `FirstMatch`, `Translate`,
  `TranslateVec` and `TranslateOne` are the evaluators.
- `homographs.dfy` (module `Homographs`): the earlier copy of the
  generators, each proved to agree with its counterpart.
- `normalize_cli.dfy` (module `NormalizeCli`): the three chain literals,
  reference definitions of what each chain does, the per-character text
  pass, and `main` without its I/O.
- `corrected.dfy` (module `Corrected`): the rules with the two defects below
  repaired, and the promises of the comments proved about them.

The model follows the code, including where it departs from the intended
design of validated, overflow-free rules:

- Constructors validate nothing (no check of `size >= 1`, of the target
  block, or of `slice >= size`).
- A range rule computes `ord - (s - t)`, not `t + (ord - s)`. The two are
  equal modulo 2^32, but only the second never underflows in a debug build (it still overflows if the target block leaves `u32`).
- The multirange inner test is `ord_ir <= s + size - 1`, not `ord_ir < size`.
- The lookup rule is a `todo!`.

## Model

| member | source | states |
|---|---|---|
| `Translators.LookupTranslation` | src/translators.rs:32-39 | every call panics (`todo!`) before any closure is built |
| `Translators.LookupNeverBuilds` | src/translators.rs:32-33 | a chain containing a lookup rule never gets built, in either build |
| `Translators.Apply` | src/translators.rs:56-59 | the closure bodies (also lines 88-96 and 106-108); its contract is given by `RangeWrapping`, `RangeChecked`, `MultirangeOutside`, `MultirangeInside`, `MultirangeChecked` and `AsciiHeadedChain` |
| `Translators.RangeTranslation` | src/translators.rs:51-55 | construction succeeds exactly in a release build or when `target <= source`; the captured offset satisfies `offset + t == s` modulo 2^32 |
| `Translators.RangeWrapping` | src/translators.rs:51-58 | release build, `s + size - 1` not wrapping: `None` for every `ord` outside `[s, s+size-1]`, `Some(t + (ord - s) mod 2^32)` inside, whichever of `s`, `t` is larger |
| `Translators.RangeWrappingExact` | src/translators.rs:54-58 | release build with the target block inside `u32`: the wrapped `ord - offset` is exactly `t + (ord - s)` |
| `Translators.RangeChecked` | src/translators.rs:51-58 | debug build: construction panics iff `source < target`; evaluation panics iff `ord >= s` and `s + size` leaves `u32` or is 0 (the `- 1` after it then underflows); otherwise domain `[s, s+size-1]` and result `t + (ord - s)` |
| `Translators.RangeEmpty` | src/translators.rs:57 | `size == 0` with `source >= 1` never matches and never panics |
| `Translators.RangeUppercaseExample` | src/translators.rs:46-58 | `range_translation('a','A',26)` sends each of 'a'..'z' to its capital and matches nothing else, in either build |
| `Translators.RangeRoundTrip` | src/translators.rs:51-58 | release build, both blocks inside `u32` (`1 <= s + size <= 2^32`, `1 <= t + size <= 2^32`): rule `(t, s, size)` sends the answer of rule `(s, t, size)` back to the input |
| `Translators.MultirangeOutside` | src/translators.rs:88-95 | release build, span fitting in `u32`: nothing outside `[s, s + slice*iters - 1]` matches |
| `Translators.MultirangeInside` | src/translators.rs:89-93 | release build, span fitting in `u32`, `1 <= s + size <= 2^32`, inside the span: no panic, `slice > 0`, a match iff `(ord - s) % slice <= s + size - 1`, result `t + (ord - s) % slice` mod 2^32, within `[t, t+slice-1]` when `t + slice <= 2^32` |
| `Translators.MultirangeGapIgnored` | src/translators.rs:69-93 | release build: whenever `slice <= s + size`, every codepoint of the span matches, although the documentation says offsets `>= size` are skipped |
| `Translators.MultirangePeriodic` | src/translators.rs:89-93 | release build, span fitting in `u32`: `ord` and `ord + slice` in the span give the same answer, whatever `size` is |
| `Translators.MultirangeChecked` | src/translators.rs:88-96 | debug build: evaluation panics iff `ord >= s` and `slice*iters` or `s + slice*iters` leaves `u32` (or the sum is 0), or, inside the span, `s + size` leaves `u32` (or is 0), or a match's `ord_ir + t` leaves `u32` |
| `Translators.MultirangeCheckedNoPanic` | src/translators.rs:88-96 | debug build, span ending inside `u32`, `1 <= s + size < 2^32`, `t + slice <= 2^32`: no panic, and the same answer as a release build |
| `Translators.MultirangeDocExampleGap` | src/translators.rs:77-93 | with the documented parameters `('\u{1D400}','A',26,52,3)`, U+1D41A yields `Some('[')` instead of being skipped |
| `Translators.MultirangeTranslation` | src/translators.rs:84-98 | captures its five arguments and computes nothing, so it never panics at construction; what its closure does is stated by the multirange lemmas above |
| `Translators.AsciiFilterTranslation` | src/translators.rs:103-110 | captures the bound 128; `AsciiHeadedChain` states that its closure matches exactly the codepoints below 128, unchanged |
| `Translators.AsciiHeadedChain` | src/translators.rs:100-108 | the filter matches exactly the codepoints below 128, unchanged; a chain headed by it returns every ASCII character unchanged |
| `Translators.Build` | normalize-cli/src/main.rs:43-44 | one generator call; `BuildChain` and `LookupNeverBuilds` state when it succeeds |
| `Translators.BuildChain` | normalize-cli/src/main.rs:42-69 | an array of generator calls builds iff every call does, into one translator per rule, in order |
| `Translators.FirstMatch` | src/translators.rs:115 | `flat_map(..).next()`; `FirstMatchIsFirst` and `FirstMatchNone` characterise it completely |
| `Translators.FirstMatchIsFirst` | src/translators.rs:115 | the search answers with the first translator that does not say `None`; translators after it are not consulted |
| `Translators.FirstMatchNone` | src/translators.rs:115 | the search finds nothing iff every translator says `None` |
| `Translators.Translate` | src/translators.rs:113-117 | `translate`; `TranslateIdentity`, `TranslatePicksFirst` and `TranslatePanics` characterise it |
| `Translators.TranslateIdentity` | src/translators.rs:113-117 | if no translator matches (an empty chain included) the input character comes back |
| `Translators.TranslatePicksFirst` | src/translators.rs:113-117 | the first match decides: its value if it is a scalar value, else the input; the rest of the chain does not matter |
| `Translators.TranslatePanics` | src/translators.rs:113-117 | a panic in the first translator that does not say `None` is the panic of `translate` |
| `Translators.TranslateCheckedAgrees` | src/translators.rs:113-117 | a debug build that does not panic translates exactly as a release build |
| `Translators.TranslateVec` | src/translators.rs:120-124 | equals `translate` on the same chain |
| `Translators.TranslateOne` | src/translators.rs:128-134 | equals `translate` on the one-element chain |
| `Homographs.LookupTranslation` | src/homographs.rs:18-25 | agrees with the translators module: panics via `todo!` on every call |
| `Homographs.RangeTranslation` | src/homographs.rs:37-47 | agrees with the translators module, so the range lemmas above hold for this copy |
| `Homographs.MultirangeTranslation` | src/homographs.rs:62-76 | agrees with the translators module, including the `s + size - 1` inner test |
| `Homographs.Translate` | src/homographs.rs:79-81 | agrees with the translators module's `translate` |
| `Homographs.RangeUppercaseExample` | src/homographs.rs:32-47 | the documented example upper-cases 'a'..'z' and leaves every other character alone |
| `NormalizeCli.TranslateText` | normalize-cli/src/main.rs:79-80 | the text pass succeeds iff every character translates; the output has the input's length, and `output[i] == translate(input[i])` |
| `NormalizeCli.TestTranslatorPanicsChecked` | normalize-cli/src/main.rs:42-45 | in a debug build, `range_translation('A','a',26)` underflows and building the chain panics |
| `NormalizeCli.TestTranslatorSwapsCase` | normalize-cli/src/main.rs:38-45 | in a release build, `test_translator` swaps the case of each ASCII letter and keeps every other character |
| `NormalizeCli.CaesarPanicsChecked` | normalize-cli/src/main.rs:51-56 | in a debug build, `range_translation('a','b',25)` underflows and building the chain panics |
| `NormalizeCli.CaesarRotates` | normalize-cli/src/main.rs:47-56 | in a release build, 'a'..'y' and 'A'..'Y' move one letter on, 'z' to 'a', 'Z' to 'A', all else unchanged |
| `NormalizeCli.MathematicalAnTranslates` | normalize-cli/src/main.rs:58-69 | in either build the chain never panics and maps every character as the block-by-block reference `MathematicalAn` says |
| `NormalizeCli.MathematicalAnExamples` | normalize-cli/src/main.rs:58-64 | ASCII is unchanged; U+1D400..U+1D419 become 'A'..'Z'; U+1D41A becomes '[' rather than 'a' |
| `NormalizeCli.LowercaseRuleShadowed` | normalize-cli/src/main.rs:60-64 | on [U+1D400, U+1D503] the rule at line 62 always answers, so the lowercase rule at line 64 is never consulted there |
| `NormalizeCli.Normalize` | normalize-cli/src/main.rs:42-80 | a run that does not panic has built all three chains, and outputs one character per input character, each the `translate` of the input character through `test_translator` |
| `NormalizeCli.NormalizePanicsChecked` | normalize-cli/src/main.rs:42-80 | a debug build panics while building its chains, whatever the input |
| `NormalizeCli.NormalizeSwapsCase` | normalize-cli/src/main.rs:76-81 | a release build outputs the input with the case of each ASCII letter swapped, position by position |
| `NormalizeCli.NormalizeHelloWorld` | normalize-cli/src/main.rs:79-80 | "Hello, World!" becomes "hELLO, wORLD!" |
| `Corrected.RangeExact` | src/translators.rs:41-58 | when both blocks fit in `u32` (`1 <= s + size < 2^32`, `t + size <= 2^32`), the repaired range rule maps `[s, s+size-1]` to `t + (ord - s)` and nothing else, in either build, whichever of `s`, `t` is larger |
| `Corrected.RangeAgrees` | src/translators.rs:51-58 | wherever the written range rule builds and its blocks fit, it agrees with the repaired one |
| `Corrected.MultirangeSkipsGap` | src/translators.rs:63-93 | when the span and a target block of `slice` codepoints fit in `u32` (`slice*iters < 2^32`, `1 <= s + slice*iters < 2^32`, `t + slice <= 2^32`), the repaired multirange, in either build, matches exactly the span's codepoints with `(ord - s) % slice < size`, answering `t + (ord - s) % slice` |
| `Corrected.MultirangeDocExample` | src/translators.rs:73-82 | with the documented parameters U+1D400 gives 'A' and U+1D41A nothing |
| `Corrected.TestTranslatorSwapsCaseChecked` | normalize-cli/src/main.rs:38-45 | with the repaired range rule, `test_translator` swaps case in a debug build too |
| `Corrected.MathematicalAnLowercase` | normalize-cli/src/main.rs:63-64 | with the repaired multirange, U+1D41A..U+1D433 become 'a'..'z' in either build |

## Findings

| source | as written | input that shows it | evidently intended | confidence | as-written member | corrected member |
|---|---|---|---|---|---|---|
| src/translators.rs:92 | the folded offset is compared with `s + size - 1`, so no offset of the span is ever skipped when `slice <= s + size` | `multirange_translation('\u{1D400}','A',26,52,3)` at U+1D41A gives `Some(0x5B)` ('['), and `mathematical_an_translator` maps U+1D41A to '[' | `ord_ir < size`, skipping the gap between sub-blocks as the documentation says | high; not executed | `Translators.MultirangeDocExampleGap` | `Corrected.MultirangeSkipsGap` |
| src/translators.rs:54 | the offset `s - t` is a `u32` subtraction done at construction | `range_translation('A','a',26)` in a debug build: `test_translator` and `caesar_translator` panic before any input is read | compute `t + (ord - s)` on the domain, which never underflows | medium; not executed | `NormalizeCli.TestTranslatorPanicsChecked` | `Corrected.TestTranslatorSwapsCaseChecked` |

The same two lines occur in src/homographs.rs (lines 40 and 70).

## Left out

- `lookup_translation` has no behaviour to model: it is a `todo!`. No indexed or hash-map lookup is invented for it.
- Command-line parsing, file and stdin/stdout I/O (normalize-cli/src/main.rs:17-36 and 71-82) are not modelled. The stdin branch is itself a `todo!`. `NormalizeCli.Normalize` starts from the decoded input text.
- UTF-8 decoding and re-encoding (`read_to_string`, `chars`, `collect`) are not modelled. Text is a sequence of Unicode scalar values.
- src/main.rs is not part of this model. It is the same I/O glue, and its one chain duplicates `test_translator`.
- libnormalize/src/config.rs is not part of this model. It is TOML, regex and file plumbing around foreign libraries, and it produces no rules.
- Boxed closures and iterator laziness are not modelled as such. A closure is the datatype of what it captured, and evaluation is a pure function. Laziness shows only in which panic wins, and the model keeps that order.
- Translators.RangeWrapping: characterises the domain only when `s + size - 1` does not wrap (`1 <= s + size <= 2^32`). Outside that, `Apply` still defines the behaviour, but no lemma states it.
- Translators.MultirangeOutside: assumes the span `s + slice*iters - 1` neither overflows nor underflows. `MultirangeInside`, `MultirangeGapIgnored` and `MultirangePeriodic` also assume that, and the first two also assume `1 <= s + size <= 2^32`. Wrapped spans are defined by `Apply` but not characterised.
- Translators.TranslateCheckedAgrees: compares the two builds only where the debug build does not panic. `RangeChecked` and `MultirangeChecked` say exactly when a range or multirange rule panics.
