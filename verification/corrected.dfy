/**
 * The translator rules as their documentation describes them, with the two
 * defects of the written code repaired:
 *
 *  - a range rule computes `t + (ord - s)` on its domain instead of taking
 *    the offset `s - t` up front, so a rule whose target lies above its
 *    source no longer underflows in a debug build;
 *  - a multirange rule compares the folded offset against `size`, so the
 *    gap between two sub-blocks is skipped.
 *
 * Rules are evaluated straight from their arguments (nothing is computed
 * at construction any more), so the chain evaluator below runs over `Rule`
 * with the same first-match search and identity fallback as
 * `Translators.FirstMatch` and `Translators.Translate`. One consequence: a
 * lookup rule, still a `todo!`, panics here when a chain consults it,
 * whereas `lookup_translation` panics when the chain is built.
 */
module Corrected {
  import opened Rust
  import opened Translators
  import NormalizeCli

  /** A rule's answer for `ord`. */
  function Apply(m: Mode, rule: Rule, ord: u32): Outcome<Option<u32>>
  {
    match rule
    case Lookup(_, _) => Panicked(Todo)
    case Range(source, target, size) =>
      var s, t := Code(source), Code(target);
      if ord < s then Ok(None)
      else
        var top :- Add(m, s, size);
        var last :- Sub(m, top, 1);
        if ord <= last then
          var d :- Sub(m, ord, s);
          var r :- Add(m, t, d);
          Ok(Some(r))
        else Ok(None)
    case Multirange(source, target, size, slice, iters) =>
      var s, t := Code(source), Code(target);
      if ord < s then Ok(None)
      else
        var span :- Mul(m, slice, iters);
        var top :- Add(m, s, span);
        var last :- Sub(m, top, 1);
        if ord <= last then
          var d :- Sub(m, ord, s);
          var ordIr :- Rem(d, slice);
          if ordIr < size then
            var r :- Add(m, ordIr, t);
            Ok(Some(r))
          else Ok(None)
        else Ok(None)
    case AsciiFilter =>
      if ord < 128 then Ok(Some(ord)) else Ok(None)
  }

  function FirstMatch(m: Mode, rules: seq<Rule>, ord: u32): Outcome<Option<u32>>
  {
    if rules == [] then Ok(None)
    else
      var r :- Apply(m, rules[0], ord);
      if r.Some? then Ok(r) else FirstMatch(m, rules[1..], ord)
  }

  function Translate(m: Mode, source: char, rules: seq<Rule>): Outcome<char>
  {
    var ord := Code(source);
    var found :- FirstMatch(m, rules, ord);
    Ok(FromU32(found.UnwrapOr(ord)).UnwrapOr(source))
  }

  /**
   * A range rule whose blocks both fit in `u32` maps `[s, s + size - 1]` to
   * `t + (ord - s)` and nothing else, in either build and whichever of `s`
   * and `t` is larger.
   */
  lemma RangeExact(m: Mode, source: char, target: char, size: u32, ord: u32)
    requires 1 <= Code(source) + size < MODULUS
    requires Code(target) + size <= MODULUS
    ensures Apply(m, Range(source, target, size), ord)
         == Ok(if Code(source) <= ord <= Code(source) + size - 1
               then Some(Code(target) + (ord - Code(source)))
               else None)
  {
  }

  /** Where the written range rule works at all, the corrected one agrees with it. */
  lemma RangeAgrees(m: Mode, source: char, target: char, size: u32, ord: u32)
    requires 1 <= Code(source) + size < MODULUS
    requires Code(target) + size <= MODULUS
    requires Build(m, Range(source, target, size)).Ok?
    ensures Translators.Apply(m, Build(m, Range(source, target, size)).value, ord)
         == Apply(m, Range(source, target, size), ord)
  {
    RangeExact(m, source, target, size, ord);
    if m == Wrapping {
      if Code(source) <= ord <= Code(source) + size - 1 {
        RangeWrappingExact(source, target, size, ord);
      } else {
        RangeWrapping(source, target, size, ord);
      }
    } else {
      RangeChecked(source, target, size, ord);
    }
  }

  /**
   * A multirange whose span and target block fit in `u32` matches exactly
   * the codepoints of its span whose folded offset is below `size`, and
   * sends each to `t` plus that offset — in either build.
   */
  lemma MultirangeSkipsGap(m: Mode, source: char, target: char, size: u32, slice: u32, iters: u32, ord: u32)
    requires slice * iters < MODULUS && 1 <= Code(source) + slice * iters < MODULUS
    requires Code(target) + slice <= MODULUS
    ensures
      var s, t := Code(source), Code(target);
      Apply(m, Multirange(source, target, size, slice, iters), ord)
      == Ok(if s <= ord <= s + slice * iters - 1 && Folded(s, slice, ord) < size
            then Some(t + Folded(s, slice, ord))
            else None)
  {
    var s, t := Code(source), Code(target);
    var span := slice * iters;
    assert Mul(m, slice, iters) == Ok(span);
    assert Add(m, s, span) == Ok(s + span);
    assert Sub(m, s + span, 1) == Ok(s + span - 1);
    if s <= ord <= s + span - 1 {
      assert 0 < slice;
      var f := Folded(s, slice, ord);
      assert Sub(m, ord, s) == Ok(ord - s);
      assert Rem(ord - s, slice) == Ok(f);
      if f < size {
        assert Add(m, f, t) == Ok(t + f);
      }
    }
  }

  /** The documented example now does what its comment says: U+1D400 gives 'A' and U+1D41A (a lowercase letter) nothing. */
  lemma MultirangeDocExample(m: Mode)
    ensures Apply(m, Multirange('\U{1D400}', 'A', 26, 52, 3), 0x1D400) == Ok(Some('A' as int))
    ensures Apply(m, Multirange('\U{1D400}', 'A', 26, 52, 3), 0x1D41A) == Ok(None)
  {
  }

  lemma {:induction false} FirstMatchIsFirst(m: Mode, rules: seq<Rule>, ord: u32, k: nat)
    requires k < |rules|
    requires forall j :: 0 <= j < k ==> Apply(m, rules[j], ord) == Ok(None)
    requires Apply(m, rules[k], ord) != Ok(None)
    ensures FirstMatch(m, rules, ord) == Apply(m, rules[k], ord)
    decreases k
  {
    if k > 0 {
      FirstMatchIsFirst(m, rules[1..], ord, k - 1);
    }
  }

  /** Only the direction the corrected chain lemmas use: rules that all say `None` give `None`. */
  lemma {:induction false} FirstMatchNone(m: Mode, rules: seq<Rule>, ord: u32)
    requires forall j :: 0 <= j < |rules| ==> Apply(m, rules[j], ord) == Ok(None)
    ensures FirstMatch(m, rules, ord) == Ok(None)
  {
    if rules != [] {
      FirstMatchNone(m, rules[1..], ord);
    }
  }

  /** With the range rule repaired, `test_translator` swaps ASCII case in a debug build too. */
  lemma TestTranslatorSwapsCaseChecked(c: char)
    ensures Translate(Checked, c, NormalizeCli.TestTranslator) == Ok(NormalizeCli.SwapCase(c))
  {
    var rules := NormalizeCli.TestTranslator;
    var x := Code(c);
    RangeExact(Checked, 'a', 'A', 26, x);
    RangeExact(Checked, 'A', 'a', 26, x);
    if 'a' <= c <= 'z' {
      FirstMatchIsFirst(Checked, rules, x, 0);
    } else if 'A' <= c <= 'Z' {
      FirstMatchIsFirst(Checked, rules, x, 1);
    } else {
      FirstMatchNone(Checked, rules, x);
      FromU32Code(c);
    }
  }

  /**
   * With the multirange repaired, the bold small letters U+1D41A..U+1D433
   * become 'a'..'z' through `mathematical_an_translator`, in either build,
   * as the comment on its lowercase rule says.
   */
  lemma MathematicalAnLowercase(m: Mode, i: nat)
    requires i < 26
    ensures Translate(m, (0x1D41A + i) as char, NormalizeCli.MathematicalAnTranslator) == Ok((0x61 + i) as char)
  {
    var rules := NormalizeCli.MathematicalAnTranslator;
    var x := 0x1D41A + i;
    MultirangeSkipsGap(m, '\U{1D400}', 'A', 26, 52, 5, x);
    assert Folded(0x1D400, 52, x) == 26 + i;
    MultirangeSkipsGap(m, '\U{1D41A}', 'a', 26, 52, 5, x);
    assert Folded(0x1D41A, 52, x) == i;
    FirstMatchIsFirst(m, rules, x, 2);
  }
}
