/**
 * The translator engine: rule constructors that capture a few `u32`
 * constants into a closure `u32 -> Option<u32>`, and the chain evaluator
 * that asks the closures of a chain in order and keeps the first answer.
 *
 * A closure is modelled by the values it captures (`Translator`); `Apply`
 * is the closure body. Every arithmetic step goes through `Rust.Add`,
 * `Rust.Sub`, `Rust.Mul` and `Rust.Rem`, so the same definitions describe
 * a debug build (`Checked`: overflow panics) and a release build
 * (`Wrapping`: arithmetic modulo 2^32).
 */
module Translators {
  import opened Rust

  /** A constructed translator: the constants its closure captured. */
  datatype Translator =
    | RangeFn(s: u32, size: u32, offset: u32)
    | MultirangeFn(s: u32, t: u32, size: u32, slice: u32, iters: u32)
    | AsciiFn(ub: u32)

  /** A call of one of the translator constructors, with its arguments. */
  datatype Rule =
    | Lookup(sources: string, targets: string)
    | Range(source: char, target: char, size: u32)
    | Multirange(source: char, target: char, size: u32, slice: u32, iters: u32)
    | AsciiFilter

  /** `lookup_translation`: not implemented; it reaches `todo!` before building a closure. */
  function LookupTranslation(source: string, target: string): (r: Outcome<Translator>)
    ensures r.Panicked? && r.cause == Todo
  {
    Panicked(Todo)
  }

  /**
   * `range_translation`: the offset `s - t` is computed when the translator
   * is built, so a debug build panics here whenever `source < target`.
   */
  function RangeTranslation(m: Mode, source: char, target: char, size: u32): (r: Outcome<Translator>)
    ensures r.Ok? <==> (m == Wrapping || Code(target) <= Code(source))
    ensures r.Ok? ==> r.value.RangeFn? && r.value.s == Code(source) && r.value.size == size
    ensures r.Ok? ==> Wrap(r.value.offset + Code(target)) == Code(source)
  {
    var s := Code(source);
    var t := Code(target);
    var offset :- Sub(m, s, t);
    Ok(RangeFn(s, size, offset))
  }

  /** `multirange_translation`: captures its arguments; no arithmetic happens at construction. */
  function MultirangeTranslation(source: char, target: char, size: u32, slice: u32, iters: u32): Translator
  {
    MultirangeFn(Code(source), Code(target), size, slice, iters)
  }

  /** `ascii_filter`: captures the bound 128. */
  function AsciiFilterTranslation(): Translator
  {
    AsciiFn(128)
  }

  /** The body of the closure a constructor returned. */
  function Apply(m: Mode, tr: Translator, ord: u32): Outcome<Option<u32>>
  {
    match tr
    case RangeFn(s, size, offset) =>
      // `ord >= s && ord <= s + size - 1`: the bound is only computed when `ord >= s`
      if ord < s then Ok(None)
      else
        var top :- Add(m, s, size);
        var last :- Sub(m, top, 1);
        if ord <= last then
          var r :- Sub(m, ord, offset);
          Ok(Some(r))
        else Ok(None)
    case MultirangeFn(s, t, size, slice, iters) =>
      if ord < s then Ok(None)
      else
        var span :- Mul(m, slice, iters);
        var top :- Add(m, s, span);
        var last :- Sub(m, top, 1);
        if ord <= last then
          var d :- Sub(m, ord, s);
          var ordIr :- Rem(d, slice);
          // as written: the inner offset is compared against `s + size - 1`
          var top2 :- Add(m, s, size);
          var last2 :- Sub(m, top2, 1);
          if ordIr <= last2 then
            var r :- Add(m, ordIr, t);
            Ok(Some(r))
          else Ok(None)
        else Ok(None)
    case AsciiFn(ub) =>
      if ord < ub then Ok(Some(ord)) else Ok(None)
  }

  /** Builds the translator a rule describes. */
  function Build(m: Mode, rule: Rule): Outcome<Translator>
  {
    match rule
    case Lookup(source, target) => LookupTranslation(source, target)
    case Range(source, target, size) => RangeTranslation(m, source, target, size)
    case Multirange(source, target, size, slice, iters) =>
      Ok(MultirangeTranslation(source, target, size, slice, iters))
    case AsciiFilter => Ok(AsciiFilterTranslation())
  }

  /** An array literal of constructor calls: built left to right, the first panic wins. */
  function BuildChain(m: Mode, rules: seq<Rule>): (r: Outcome<seq<Translator>>)
    ensures r.Ok? <==> forall i :: 0 <= i < |rules| ==> Build(m, rules[i]).Ok?
    ensures r.Ok? ==> |r.value| == |rules|
    ensures r.Ok? ==> forall i :: 0 <= i < |rules| ==> Build(m, rules[i]) == Ok(r.value[i])
  {
    if rules == [] then Ok([])
    else
      var first :- Build(m, rules[0]);
      var rest :- BuildChain(m, rules[1..]);
      assert forall i :: 1 <= i < |rules| ==> rules[i] == rules[1..][i - 1];
      Ok([first] + rest)
  }

  /** A chain is built exactly when each of its rules builds, into the translators those give. */
  lemma BuildChainOf(m: Mode, rules: seq<Rule>, chain: seq<Translator>)
    requires |chain| == |rules|
    requires forall i :: 0 <= i < |rules| ==> Build(m, rules[i]) == Ok(chain[i])
    ensures BuildChain(m, rules) == Ok(chain)
  {
    var r := BuildChain(m, rules);
    assert r.Ok?;
    assert r.value == chain;
  }

  /** `translator.iter().flat_map(|f| (*f)(ord)).next()`: the first answer that is `Some`. */
  function FirstMatch(m: Mode, chain: seq<Translator>, ord: u32): Outcome<Option<u32>>
  {
    if chain == [] then Ok(None)
    else
      var r :- Apply(m, chain[0], ord);
      if r.Some? then Ok(r) else FirstMatch(m, chain[1..], ord)
  }

  /** `translate`: the first match, or the input; an answer that is no scalar value gives the input back. */
  function Translate(m: Mode, source: char, chain: seq<Translator>): Outcome<char>
  {
    var ord := Code(source);
    var found :- FirstMatch(m, chain, ord);
    Ok(FromU32(found.UnwrapOr(ord)).UnwrapOr(source))
  }

  /** `translate_vec`: the same evaluation over a `Vec`. */
  function TranslateVec(m: Mode, source: char, chain: seq<Translator>): (r: Outcome<char>)
    ensures r == Translate(m, source, chain)
  {
    var ord := Code(source);
    var found :- FirstMatch(m, chain, ord);
    Ok(FromU32(found.UnwrapOr(ord)).UnwrapOr(source))
  }

  /** `translate_one`: a single translator, matched directly. */
  function TranslateOne(m: Mode, source: char, tr: Translator): (r: Outcome<char>)
    ensures r == Translate(m, source, [tr])
  {
    assert [tr][1..] == [];
    var res :- Apply(m, tr, Code(source));
    match res
    case Some(res0) => Ok(FromU32(res0).UnwrapOr(source))
    case None =>
      assert FirstMatch(m, [tr], Code(source)) == FirstMatch(m, [], Code(source));
      FromU32Code(source);
      Ok(source)
  }

  // ---------------------------------------------------------------------
  // Range translator

  /**
   * Release build: when the last codepoint `s + size - 1` does not wrap,
   * the translator matches exactly `[s, s + size - 1]` and sends `ord` to
   * `t + (ord - s)` modulo 2^32, whichever of `s` and `t` is larger.
   */
  lemma RangeWrapping(source: char, target: char, size: u32, ord: u32)
    requires 1 <= Code(source) + size <= MODULUS
    ensures RangeTranslation(Wrapping, source, target, size).Ok?
    ensures Apply(Wrapping, RangeTranslation(Wrapping, source, target, size).value, ord)
         == Ok(if Code(source) <= ord <= Code(source) + size - 1
               then Some(Wrap(Code(target) + (ord - Code(source))))
               else None)
  {
    var s, t := Code(source), Code(target);
    var tr := RangeTranslation(Wrapping, source, target, size).value;
    assert tr.offset == Wrap(s - t);
    if s <= ord {
      assert Wrap(Wrap(s + size) - 1) == s + size - 1;
      WrapSub(ord, s - t);
    }
  }

  /**
   * Release build, target block inside `u32`: no wrap-around shows in the
   * result, which is exactly `t + (ord - s)`.
   */
  lemma RangeWrappingExact(source: char, target: char, size: u32, ord: u32)
    requires 1 <= Code(source) + size <= MODULUS
    requires Code(target) + size <= MODULUS
    requires Code(source) <= ord <= Code(source) + size - 1
    ensures RangeTranslation(Wrapping, source, target, size).Ok?
    ensures Apply(Wrapping, RangeTranslation(Wrapping, source, target, size).value, ord)
         == Ok(Some(Code(target) + (ord - Code(source))))
  {
    RangeWrapping(source, target, size, ord);
  }

  /**
   * Debug build: building panics exactly when `source < target`. Once
   * built, evaluation panics exactly when `ord >= s` and `s + size`
   * leaves `u32` or is 0 (the `- 1` after it underflows); otherwise the
   * domain is `[s, s + size - 1]` and the result `ord - (s - t) == t + (ord - s)`.
   */
  lemma RangeChecked(source: char, target: char, size: u32, ord: u32)
    ensures RangeTranslation(Checked, source, target, size).Ok? <==> Code(target) <= Code(source)
    ensures RangeTranslation(Checked, source, target, size).Ok? ==>
      var r := Apply(Checked, RangeTranslation(Checked, source, target, size).value, ord);
      && (r.Panicked? <==> Code(source) <= ord && !(1 <= Code(source) + size < MODULUS))
      && (r.Ok? ==> r.value == if Code(source) <= ord <= Code(source) + size - 1
                               then Some(Code(target) + (ord - Code(source)))
                               else None)
  {
  }

  /** With `size == 0` and `source >= 1` the bound `s + 0 - 1` is below `s`: nothing matches, in either build. */
  lemma RangeEmpty(m: Mode, source: char, target: char, ord: u32)
    requires 1 <= Code(source)
    requires RangeTranslation(m, source, target, 0).Ok?
    ensures Apply(m, RangeTranslation(m, source, target, 0).value, ord) == Ok(None)
  {
  }

  /** The documented example `range_translation('a', 'A', 26)` upper-cases 'a'..'z' and matches nothing else. */
  lemma RangeUppercaseExample(m: Mode, ord: u32)
    ensures RangeTranslation(m, 'a', 'A', 26).Ok?
    ensures Apply(m, RangeTranslation(m, 'a', 'A', 26).value, ord)
         == Ok(if 'a' as int <= ord <= 'z' as int then Some(ord - 32) else None)
  {
  }

  /**
   * The rule `(target, source, size)` undoes `(source, target, size)` on its
   * domain (release build; both blocks inside `u32`).
   */
  lemma RangeRoundTrip(source: char, target: char, size: u32, ord: u32)
    requires 1 <= Code(source) + size <= MODULUS
    requires 1 <= Code(target) + size <= MODULUS
    requires Code(source) <= ord <= Code(source) + size - 1
    ensures RangeTranslation(Wrapping, source, target, size).Ok?
    ensures RangeTranslation(Wrapping, target, source, size).Ok?
    ensures
      var there := Apply(Wrapping, RangeTranslation(Wrapping, source, target, size).value, ord);
      && there.Ok? && there.value.Some?
      && Apply(Wrapping, RangeTranslation(Wrapping, target, source, size).value, there.value.value)
         == Ok(Some(ord))
  {
    RangeWrappingExact(source, target, size, ord);
    var x := Code(target) + (ord - Code(source));
    RangeWrappingExact(target, source, size, x);
  }

  // ---------------------------------------------------------------------
  // Multirange translator

  /** The span `s + slice * iters - 1` neither overflows nor underflows. */
  predicate SpanFits(s: u32, slice: u32, iters: u32) {
    slice * iters < MODULUS && 1 <= s + slice * iters <= MODULUS
  }

  /** The folded offset of `ord` inside a multirange that starts at `s`. */
  function Folded(s: int, slice: int, ord: int): int
    requires s <= ord && 0 < slice
  {
    (ord - s) % slice
  }

  /** Release build: `a + n - 1` is the last of `n` codepoints from `a` whenever it is in `u32`, even when `a + n` wraps to 0. */
  lemma LastWrapping(a: u32, n: u32)
    requires 1 <= a + n <= MODULUS
    ensures Add(Wrapping, a, n).Ok?
    ensures Sub(Wrapping, Add(Wrapping, a, n).value, 1) == Ok(a + n - 1)
  {
    if a + n == MODULUS {
      assert Add(Wrapping, a, n) == Ok(0);
    }
  }

  /** Release build: when its span fits, a multirange matches nothing outside `[s, s + slice * iters - 1]`. */
  lemma MultirangeOutside(s: u32, t: u32, size: u32, slice: u32, iters: u32, ord: u32)
    requires SpanFits(s, slice, iters)
    requires ord < s || ord > s + slice * iters - 1
    ensures Apply(Wrapping, MultirangeFn(s, t, size, slice, iters), ord) == Ok(None)
  {
    if s <= ord {
      var span := slice * iters;
      assert Mul(Wrapping, slice, iters) == Ok(span);
      LastWrapping(s, span);
    }
  }

  /**
   * Release build, inside the span: `slice` is positive, and a match, if
   * any, is `t + (ord - s) % slice` — in `[t, t + slice - 1]` when that
   * block fits in `u32`. The as-written inner test makes it a match exactly
   * when the folded offset is at most `s + size - 1`.
   */
  lemma MultirangeInside(s: u32, t: u32, size: u32, slice: u32, iters: u32, ord: u32)
    requires SpanFits(s, slice, iters)
    requires 1 <= s + size <= MODULUS
    requires s <= ord <= s + slice * iters - 1
    ensures 0 < slice
    ensures
      var r := Apply(Wrapping, MultirangeFn(s, t, size, slice, iters), ord);
      && r.Ok?
      && (r.value.Some? <==> Folded(s, slice, ord) <= s + size - 1)
      && (r.value.Some? ==> r.value.value == Wrap(t + Folded(s, slice, ord)))
      && (r.value.Some? && t + slice <= MODULUS ==> t <= r.value.value <= t + slice - 1)
  {
    var span := slice * iters;
    assert 0 < slice;
    assert Mul(Wrapping, slice, iters) == Ok(span);
    LastWrapping(s, span);
    LastWrapping(s, size);
    var f := Folded(s, slice, ord);
    assert Sub(Wrapping, ord, s) == Ok(ord - s);
    assert Rem(ord - s, slice) == Ok(f);
  }
  /**
   * The defect at the inner test: whenever `slice <= s + size`, every
   * codepoint of the span matches — no sub-block gap is ever skipped,
   * although the documentation says offsets of at least `size` are.
   */
  lemma MultirangeGapIgnored(s: u32, t: u32, size: u32, slice: u32, iters: u32, ord: u32)
    requires SpanFits(s, slice, iters)
    requires 1 <= s + size <= MODULUS
    requires slice <= s + size
    requires s <= ord <= s + slice * iters - 1
    ensures Apply(Wrapping, MultirangeFn(s, t, size, slice, iters), ord).Ok?
    ensures Apply(Wrapping, MultirangeFn(s, t, size, slice, iters), ord).value.Some?
  {
    MultirangeInside(s, t, size, slice, iters, ord);
  }

  /**
   * Debug build: evaluation panics exactly when `ord >= s` and a step
   * overflows — `slice * iters`, `s + slice * iters` (or the `- 1` after it,
   * when that sum is 0) — or, for `ord` inside the span, `s + size` (or the
   * `- 1` after it) or, for a match, `ord_ir + t`.
   */
  lemma MultirangeChecked(s: u32, t: u32, size: u32, slice: u32, iters: u32, ord: u32)
    ensures
      Apply(Checked, MultirangeFn(s, t, size, slice, iters), ord).Panicked?
      <==>
      s <= ord && !(
        && slice * iters < MODULUS
        && 1 <= s + slice * iters < MODULUS
        && (ord <= s + slice * iters - 1 ==>
              && 1 <= s + size < MODULUS
              && (0 < slice && Folded(s, slice, ord) <= s + size - 1 ==> t + Folded(s, slice, ord) < MODULUS)))
  {
    if s <= ord && slice * iters < MODULUS && 1 <= s + slice * iters < MODULUS && ord <= s + slice * iters - 1 {
      var span := slice * iters;
      assert 0 < slice;
      assert Mul(Checked, slice, iters) == Ok(span);
      assert Rem(ord - s, slice) == Ok(Folded(s, slice, ord));
    }
  }

  /**
   * Debug build: a multirange whose span ends inside `u32`, with
   * `s + size` inside `u32` and a target block of `slice` codepoints that
   * fits, never panics.
   */
  lemma MultirangeCheckedNoPanic(s: u32, t: u32, size: u32, slice: u32, iters: u32, ord: u32)
    requires slice * iters < MODULUS && 1 <= s + slice * iters < MODULUS
    requires 1 <= s + size < MODULUS
    requires t + slice <= MODULUS
    ensures Apply(Checked, MultirangeFn(s, t, size, slice, iters), ord).Ok?
    ensures Apply(Checked, MultirangeFn(s, t, size, slice, iters), ord)
         == Apply(Wrapping, MultirangeFn(s, t, size, slice, iters), ord)
  {
    MultirangeChecked(s, t, size, slice, iters, ord);
    ApplyCheckedAgrees(MultirangeFn(s, t, size, slice, iters), ord);
  }

  /** Codepoints one `slice` apart inside the span get the same answer. */
  lemma MultirangePeriodic(s: u32, t: u32, size: u32, slice: u32, iters: u32, ord: u32)
    requires SpanFits(s, slice, iters)
    requires s <= ord && ord + slice <= s + slice * iters - 1
    ensures Apply(Wrapping, MultirangeFn(s, t, size, slice, iters), ord)
         == Apply(Wrapping, MultirangeFn(s, t, size, slice, iters), ord + slice)
  {
    var span := slice * iters;
    assert 0 < slice;
    assert Mul(Wrapping, slice, iters) == Ok(span);
    LastWrapping(s, span);
    FoldedPeriodic(s, slice, ord);
    assert Rem(ord + slice - s, slice) == Rem(ord - s, slice);
  }

  lemma FoldedPeriodic(s: int, slice: int, ord: int)
    requires s <= ord && 0 < slice
    ensures Folded(s, slice, ord + slice) == Folded(s, slice, ord)
  {
    var d := ord - s;
    var q := d / slice;
    assert d == q * slice + d % slice;
    assert d + slice == (q + 1) * slice + d % slice;
    ModUnique(d + slice, slice, q + 1, d % slice);
  }

  /**
   * The documented example `multirange_translation('\u{1D400}', 'A', 26, 52, 3)`
   * is said to skip the lowercase letters, yet U+1D41A (bold small a) gives
   * 0x5B, '[', in either build.
   */
  lemma MultirangeDocExampleGap(m: Mode)
    ensures Apply(m, MultirangeTranslation('\U{1D400}', 'A', 26, 52, 3), 0x1D41A) == Ok(Some('[' as int))
  {
  }

  // ---------------------------------------------------------------------
  // ASCII filter

  /** A chain headed by `ascii_filter` returns every ASCII character unchanged, and the filter alone matches only ASCII. */
  lemma AsciiHeadedChain(m: Mode, c: char, rest: seq<Translator>)
    ensures Apply(m, AsciiFilterTranslation(), Code(c)) == Ok(if Code(c) < 128 then Some(Code(c)) else None)
    ensures Code(c) < 128 ==> Translate(m, c, [AsciiFilterTranslation()] + rest) == Ok(c)
  {
    FromU32Code(c);
  }

  // ---------------------------------------------------------------------
  // Chain evaluation

  /**
   * `FirstMatch` answers with the first translator that does not say `None`
   * (a `Some` or a panic); the ones after it are never consulted.
   */
  lemma {:induction false} FirstMatchIsFirst(m: Mode, chain: seq<Translator>, ord: u32, k: nat)
    requires k < |chain|
    requires forall j :: 0 <= j < k ==> Apply(m, chain[j], ord) == Ok(None)
    requires Apply(m, chain[k], ord) != Ok(None)
    ensures FirstMatch(m, chain, ord) == Apply(m, chain[k], ord)
    ensures FirstMatch(m, chain, ord) == FirstMatch(m, chain[..k + 1], ord)
    decreases k
  {
    if k > 0 {
      assert chain[1..][..k] == chain[..k + 1][1..];
      FirstMatchIsFirst(m, chain[1..], ord, k - 1);
    }
  }

  /** Nothing matches exactly when every translator says `None`. */
  lemma {:induction false} FirstMatchNone(m: Mode, chain: seq<Translator>, ord: u32)
    ensures FirstMatch(m, chain, ord) == Ok(None)
        <==> forall j :: 0 <= j < |chain| ==> Apply(m, chain[j], ord) == Ok(None)
  {
    if chain != [] {
      FirstMatchNone(m, chain[1..], ord);
      assert forall j :: 1 <= j < |chain| ==> chain[j] == chain[1..][j - 1];
    }
  }

  /** If no translator matches (for instance, the chain is empty) the input comes back unchanged. */
  lemma TranslateIdentity(m: Mode, c: char, chain: seq<Translator>)
    requires forall j :: 0 <= j < |chain| ==> Apply(m, chain[j], Code(c)) == Ok(None)
    ensures Translate(m, c, chain) == Ok(c)
  {
    FirstMatchNone(m, chain, Code(c));
    FromU32Code(c);
  }

  /**
   * The first match decides: its value when it is a scalar value, the input
   * when it is not — later translators are not consulted in either case.
   */
  lemma TranslatePicksFirst(m: Mode, c: char, chain: seq<Translator>, k: nat, x: u32)
    requires k < |chain|
    requires forall j :: 0 <= j < k ==> Apply(m, chain[j], Code(c)) == Ok(None)
    requires Apply(m, chain[k], Code(c)) == Ok(Some(x))
    ensures Translate(m, c, chain) == Ok(if IsScalar(x) then x as char else c)
    ensures Translate(m, c, chain) == Translate(m, c, chain[..k + 1])
  {
    FirstMatchIsFirst(m, chain, Code(c), k);
  }

  /** A panic in the first translator that does not say `None` is the chain's panic. */
  lemma TranslatePanics(m: Mode, c: char, chain: seq<Translator>, k: nat)
    requires k < |chain|
    requires forall j :: 0 <= j < k ==> Apply(m, chain[j], Code(c)) == Ok(None)
    requires Apply(m, chain[k], Code(c)).Panicked?
    ensures Translate(m, c, chain) == Panicked(Apply(m, chain[k], Code(c)).cause)
  {
    FirstMatchIsFirst(m, chain, Code(c), k);
  }

  // ---------------------------------------------------------------------
  // Debug and release builds agree wherever the debug build does not panic

  lemma ApplyCheckedAgrees(tr: Translator, ord: u32)
    ensures Apply(Checked, tr, ord).Ok? ==> Apply(Checked, tr, ord) == Apply(Wrapping, tr, ord)
  {
  }

  lemma {:induction false} FirstMatchCheckedAgrees(chain: seq<Translator>, ord: u32)
    ensures FirstMatch(Checked, chain, ord).Ok? ==> FirstMatch(Checked, chain, ord) == FirstMatch(Wrapping, chain, ord)
  {
    if chain != [] {
      ApplyCheckedAgrees(chain[0], ord);
      FirstMatchCheckedAgrees(chain[1..], ord);
    }
  }

  /** A debug build that does not panic translates a character exactly as a release build does. */
  lemma TranslateCheckedAgrees(c: char, chain: seq<Translator>)
    ensures Translate(Checked, c, chain).Ok? ==> Translate(Checked, c, chain) == Translate(Wrapping, c, chain)
  {
    FirstMatchCheckedAgrees(chain, Code(c));
  }

  /** A chain with a lookup rule in it never gets built: `lookup_translation` panics. */
  lemma LookupNeverBuilds(m: Mode, rules: seq<Rule>, k: nat)
    requires k < |rules| && rules[k].Lookup?
    ensures BuildChain(m, rules).Panicked?
  {
    assert !Build(m, rules[k]).Ok?;
  }
}
