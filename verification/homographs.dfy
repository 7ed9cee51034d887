/**
 * The earlier copy of the translator generators. Its constructors return
 * the same kind of closure as the translators module's, with the same
 * captured constants and the same body, and its `translate` is the same
 * iterator search; each member below is stated as agreeing with its
 * counterpart, so every property proved there holds here.
 */
module Homographs {
  import opened Rust
  import Translators

  /** `lookup_translation`: `todo!` on every call, before any closure exists. */
  function LookupTranslation(source: string, target: string): (r: Outcome<Translators.Translator>)
    ensures r == Translators.LookupTranslation(source, target)
    ensures r.Panicked? && r.cause == Todo
  {
    Panicked(Todo)
  }

  /** `range_translation`: offset `s - t` taken at construction, body `ord - offset` on `[s, s + size - 1]`. */
  function RangeTranslation(m: Mode, source: char, target: char, size: u32): (r: Outcome<Translators.Translator>)
    ensures r == Translators.RangeTranslation(m, source, target, size)
  {
    var s := Code(source);
    var t := Code(target);
    var offset :- Sub(m, s, t);
    Ok(Translators.RangeFn(s, size, offset))
  }

  /** `multirange_translation`: the same captures, hence the same `s + size - 1` inner comparison. */
  function MultirangeTranslation(source: char, target: char, size: u32, slice: u32, iters: u32): (r: Translators.Translator)
    ensures r == Translators.MultirangeTranslation(source, target, size, slice, iters)
  {
    Translators.MultirangeFn(Code(source), Code(target), size, slice, iters)
  }

  /** `translate`: first match, identity fallback, input back on a non-scalar answer. */
  function Translate(m: Mode, source: char, chain: seq<Translators.Translator>): (r: Outcome<char>)
    ensures r == Translators.Translate(m, source, chain)
  {
    var ord := Code(source);
    var found :- Translators.FirstMatch(m, chain, ord);
    Ok(FromU32(found.UnwrapOr(ord)).UnwrapOr(source))
  }

  /** The documented example upper-cases 'a'..'z' here too, and leaves every other character alone. */
  lemma RangeUppercaseExample(m: Mode, c: char)
    ensures RangeTranslation(m, 'a', 'A', 26).Ok?
    ensures Translate(m, c, [RangeTranslation(m, 'a', 'A', 26).value])
         == Ok(if 'a' <= c <= 'z' then (Code(c) - 32) as char else c)
  {
    var tr := RangeTranslation(m, 'a', 'A', 26).value;
    Translators.RangeUppercaseExample(m, Code(c));
    if 'a' <= c <= 'z' {
      Translators.TranslatePicksFirst(m, c, [tr], 0, Code(c) - 32);
    } else {
      Translators.TranslateIdentity(m, c, [tr]);
    }
  }
}
