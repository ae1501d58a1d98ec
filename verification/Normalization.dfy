/**
 * `normalize_text` (`redaction/verify_gate.py`): canonical composition, case folding character by
 * character, and then the whitespace phase.
 */
module Normalization {
  import opened Whitespace

  /** The library's tables: composition reads whole texts, folding maps one character to some text. */
  datatype Unicode = Unicode(compose: string -> string, fold: char -> string, space: Spaces)

  function FoldCase(fold: char -> string, s: string): string {
    if s == "" then "" else fold(s[0]) + FoldCase(fold, s[1..])
  }

  function Folded(u: Unicode, s: string): string { FoldCase(u.fold, u.compose(s)) }

  function NormalizeText(u: Unicode, s: string): string { NormalizeSpaces(u.space, Folded(u, s)) }

  lemma {:induction false} FoldCaseConcat(fold: char -> string, x: string, y: string)
    ensures FoldCase(fold, x + y) == FoldCase(fold, x) + FoldCase(fold, y)
  {
    if x == "" {
      assert x + y == y;
    } else {
      assert (x + y)[1..] == x[1..] + y;
      FoldCaseConcat(fold, x[1..], y);
    }
  }

  /** Page text shows a string if, both composed and case-folded, it has it up to whitespace. */
  ghost predicate ShowsText(u: Unicode, page: string, raw: string) {
    Shows(u.space, Folded(u, page), Folded(u, raw))
  }

  /** No character of the string is composed with one outside this occurrence. */
  predicate ComposesApart(u: Unicode, before: string, raw: string, after: string) {
    u.compose(before + raw + after) == u.compose(before) + u.compose(raw) + u.compose(after)
  }

  /** Text in which the composed string occurs shows it. */
  lemma ComposedOccurrenceShows(u: Unicode, page: string, raw: string)
    requires Contains(u.compose(page), u.compose(raw))
    ensures ShowsText(u, page, raw)
  {
    var x, y := ContainsSplit(u.compose(page), u.compose(raw));
    FoldCaseConcat(u.fold, x + u.compose(raw), y);
    FoldCaseConcat(u.fold, x, u.compose(raw));
    ContainsParts(FoldCase(u.fold, x), Folded(u, raw), FoldCase(u.fold, y));
  }

  /** Text in which the string occurs without being composed with its surroundings shows it. */
  lemma OccurrenceShows(u: Unicode, before: string, raw: string, after: string)
    requires ComposesApart(u, before, raw, after)
    ensures ShowsText(u, before + raw + after, raw)
  {
    ContainsParts(u.compose(before), u.compose(raw), u.compose(after));
    ComposedOccurrenceShows(u, before + raw + after, raw);
  }

  const ACUTE := '\U{0301}'
  const E_ACUTE := '\U{00E9}'

  /** Composition of one pair: e and the combining acute accent become the accented letter. */
  function ComposeAcute(s: string): string {
    if |s| < 2 then s
    else if s[0] == 'e' && s[1] == ACUTE then [E_ACUTE] + ComposeAcute(s[2..])
    else [s[0]] + ComposeAcute(s[1..])
  }

  lemma FoldOne(fold: char -> string, c: char)
    ensures FoldCase(fold, [c]) == fold(c)
  {
    assert [c][1..] == "";
  }

  /**
   * The proviso is needed: a letter before a combining accent occurs in the text, but the normal
   * form of the text does not contain it.
   */
  lemma AccentHidesLetter(space: Spaces)
    requires space(' ') && !space('e') && !space(E_ACUTE)
    ensures var u := Unicode(ComposeAcute, c => [c], space);
            && Contains(['e', ACUTE], "e")
            && !Contains(NormalizeText(u, ['e', ACUTE]), NormalizeText(u, "e"))
  {
    var u := Unicode(ComposeAcute, c => [c], space);
    var page := ['e', ACUTE];
    ContainsParts("", "e", [ACUTE]);
    assert "" + "e" + [ACUTE] == page;
    assert page[2..] == "";
    FoldOne(u.fold, E_ACUTE);
    FoldOne(u.fold, 'e');
    assert u.compose(page) == [E_ACUTE] && u.compose("e") == ['e'];
    SingleSpacedIsFixed(space, [E_ACUTE]);
    SingleSpacedIsFixed(space, "e");
    assert !Contains([E_ACUTE], "e");
  }
}
