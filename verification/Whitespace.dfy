/** The whitespace phase of `normalize_text` (`redaction/verify_gate.py`): collapse runs to one blank, then strip. */
module Whitespace {

  /** Which characters count as whitespace. */
  type Spaces = char -> bool

  function SkipSpaces(sp: Spaces, s: string): (r: string)
    ensures |r| <= |s|
    ensures r != "" ==> !sp(r[0])
  {
    if s != "" && sp(s[0]) then SkipSpaces(sp, s[1..]) else s
  }

  function Collapse(sp: Spaces, s: string): string
    decreases |s|
  {
    if s == "" then ""
    else if sp(s[0]) then " " + Collapse(sp, SkipSpaces(sp, s[1..]))
    else [s[0]] + Collapse(sp, s[1..])
  }

  function StripEnd(sp: Spaces, s: string): string {
    if s != "" && sp(s[|s| - 1]) then StripEnd(sp, s[..|s| - 1]) else s
  }

  function NormalizeSpaces(sp: Spaces, s: string): string {
    StripEnd(sp, SkipSpaces(sp, Collapse(sp, s)))
  }

  predicate Contains(hay: string, needle: string) {
    exists i :: 0 <= i <= |hay| && Starts(hay[i..], needle)
  }

  predicate Starts(s: string, prefix: string) {
    |prefix| <= |s| && s[..|prefix|] == prefix
  }

  lemma ContainsParts(before: string, needle: string, after: string)
    ensures Contains(before + needle + after, needle)
  {
    assert (before + needle + after)[|before|..] == needle + after;
  }

  lemma ContainsAt(hay: string, needle: string) returns (i: nat)
    requires Contains(hay, needle)
    ensures i + |needle| <= |hay| && hay[i..i + |needle|] == needle
  {
    i :| 0 <= i <= |hay| && Starts(hay[i..], needle);
    assert hay[i..][..|needle|] == hay[i..i + |needle|];
  }

  lemma ContainsSlice(hay: string, from: nat, to: nat)
    requires from <= to <= |hay|
    ensures Contains(hay, hay[from..to])
  {
    assert hay[from..][..to - from] == hay[from..to];
    assert Starts(hay[from..], hay[from..to]);
  }

  lemma ContainsSplit(hay: string, needle: string) returns (before: string, after: string)
    requires Contains(hay, needle)
    ensures hay == before + needle + after
  {
    var i :| 0 <= i <= |hay| && Starts(hay[i..], needle);
    before, after := hay[..i], hay[i + |needle|..];
  }

  /** The text without one leading blank, if it has one. */
  function DropBlank(s: string): string {
    if s != "" && s[0] == ' ' then s[1..] else s
  }

  lemma CollapseAfterSpaces(sp: Spaces, s: string)
    requires sp(' ')
    ensures Collapse(sp, SkipSpaces(sp, s)) == DropBlank(Collapse(sp, s))
  {
  }

  /** Collapsing a concatenation joins the two collapsed parts, merging the blanks where they meet. */
  lemma {:induction false} CollapseConcat(sp: Spaces, x: string, y: string)
    requires sp(' ')
    ensures Collapse(sp, x + y)
         == Collapse(sp, x) + if x != "" && sp(x[|x| - 1]) then DropBlank(Collapse(sp, y)) else Collapse(sp, y)
    decreases |x|, 1
  {
    hide Collapse, DropBlank;
    if x == "" {
      CollapseNothing(sp, y);
    } else if sp(x[0]) {
      CollapseSpacesConcat(sp, x, y);
    } else {
      CollapseConcat(sp, x[1..], y);
      CollapseFirst(sp, x, y);
      assert x[1..] != "" ==> x[1..][|x| - 2] == x[|x| - 1];
    }
  }

  lemma CollapseNothing(sp: Spaces, y: string)
    ensures Collapse(sp, "" + y) == Collapse(sp, "") + Collapse(sp, y) && Collapse(sp, "") == ""
  {
    assert "" + y == y;
  }

  lemma CollapseFirst(sp: Spaces, x: string, y: string)
    requires x != "" && !sp(x[0])
    ensures Collapse(sp, x) == [x[0]] + Collapse(sp, x[1..])
    ensures Collapse(sp, x + y) == [x[0]] + Collapse(sp, x[1..] + y)
  {
    assert (x + y)[1..] == x[1..] + y;
  }

  lemma {:induction false} CollapseSpacesConcat(sp: Spaces, x: string, y: string)
    requires sp(' ') && x != "" && sp(x[0])
    ensures Collapse(sp, x + y)
         == Collapse(sp, x) + if sp(x[|x| - 1]) then DropBlank(Collapse(sp, y)) else Collapse(sp, y)
    decreases |x|, 0
  {
    SkipEnds(sp, x, y);
    CollapseSpaces(sp, x, y);
    var rest := SkipSpaces(sp, x[1..]);
    hide Collapse, DropBlank, SkipSpaces;
    if rest == "" {
      CollapseAfterSpaces(sp, y);
      CollapseNothing(sp, y);
      Regroup("", DropBlank(Collapse(sp, y)));
    } else {
      CollapseConcat(sp, rest, y);
      Regroup(Collapse(sp, rest), if sp(x[|x| - 1]) then DropBlank(Collapse(sp, y)) else Collapse(sp, y));
    }
  }

  lemma Regroup(a: string, b: string)
    ensures " " + (a + b) == " " + a + b && "" + b == b
  {
  }

  lemma SkipEnds(sp: Spaces, x: string, y: string)
    requires x != "" && sp(x[0])
    ensures var rest := SkipSpaces(sp, x[1..]);
            && SkipSpaces(sp, x[1..] + y) == (if rest == "" then SkipSpaces(sp, y) else rest + y)
            && if rest == "" then sp(x[|x| - 1]) else rest[|rest| - 1] == x[|x| - 1]
  {
    SkipConcat(sp, x[1..], y);
    assert x[1..] != "" ==> x[1..][|x| - 2] == x[|x| - 1];
    hide SkipSpaces;
  }

  lemma CollapseSpaces(sp: Spaces, x: string, y: string)
    requires x != "" && sp(x[0])
    ensures Collapse(sp, x) == " " + Collapse(sp, SkipSpaces(sp, x[1..]))
    ensures Collapse(sp, x + y) == " " + Collapse(sp, SkipSpaces(sp, x[1..] + y))
  {
    assert (x + y)[1..] == x[1..] + y;
  }

  lemma {:induction false} SkipConcat(sp: Spaces, x: string, y: string)
    ensures SkipSpaces(sp, x + y) == if SkipSpaces(sp, x) == "" then SkipSpaces(sp, y) else SkipSpaces(sp, x) + y
    ensures SkipSpaces(sp, x) != "" ==> SkipSpaces(sp, x)[|SkipSpaces(sp, x)| - 1] == x[|x| - 1]
    ensures SkipSpaces(sp, x) == "" && x != "" ==> sp(x[|x| - 1])
  {
    if x == "" {
      assert x + y == y;
    } else if sp(x[0]) {
      assert (x + y)[1..] == x[1..] + y;
      SkipConcat(sp, x[1..], y);
    }
  }

  /** Stripping takes only whitespace from either end. */
  lemma {:induction false} StripEndParts(sp: Spaces, s: string) returns (tail: string)
    ensures s == StripEnd(sp, s) + tail
    ensures forall k :: 0 <= k < |tail| ==> sp(tail[k])
    ensures StripEnd(sp, s) != "" ==> !sp(StripEnd(sp, s)[|StripEnd(sp, s)| - 1])
  {
    if s != "" && sp(s[|s| - 1]) {
      tail := StripEndParts(sp, s[..|s| - 1]);
      tail := tail + [s[|s| - 1]];
    } else {
      tail := "";
    }
  }

  lemma {:induction false} SkipParts(sp: Spaces, s: string) returns (lead: string)
    ensures s == lead + SkipSpaces(sp, s)
    ensures forall k :: 0 <= k < |lead| ==> sp(lead[k])
  {
    if s != "" && sp(s[0]) {
      lead := SkipParts(sp, s[1..]);
      lead := [s[0]] + lead;
    } else {
      lead := "";
    }
  }

  lemma StripParts(sp: Spaces, s: string) returns (lead: string, tail: string)
    ensures s == lead + StripEnd(sp, SkipSpaces(sp, s)) + tail
    ensures forall k :: 0 <= k < |lead| ==> sp(lead[k])
    ensures forall k :: 0 <= k < |tail| ==> sp(tail[k])
    ensures var core := StripEnd(sp, SkipSpaces(sp, s)); core != "" ==> !sp(core[0]) && !sp(core[|core| - 1])
  {
    var mid := SkipSpaces(sp, s);
    lead := SkipParts(sp, s);
    tail := StripEndParts(sp, mid);
    assert StripEnd(sp, mid) != "" ==> StripEnd(sp, mid)[0] == mid[0];
    assert lead + (StripEnd(sp, mid) + tail) == lead + StripEnd(sp, mid) + tail;
  }

  /** A needle in three parts of which the outer two are blank lies in the middle one. */
  lemma NeedleInCore(sp: Spaces, lead: string, core: string, tail: string, needle: string, i: nat)
    requires needle != "" && !sp(needle[0]) && !sp(needle[|needle| - 1])
    requires forall k :: 0 <= k < |lead| ==> sp(lead[k])
    requires forall k :: 0 <= k < |tail| ==> sp(tail[k])
    requires i + |needle| <= |lead + core + tail| && (lead + core + tail)[i..i + |needle|] == needle
    ensures |lead| <= i && i + |needle| <= |lead| + |core|
    ensures core[i - |lead|..i - |lead| + |needle|] == needle
  {
    var hay, last := lead + core + tail, i + |needle| - 1;
    assert hay[i] == needle[0] && hay[last] == needle[|needle| - 1];
    forall n | 0 <= n < |lead| ensures sp(hay[n]) { assert hay[n] == lead[n]; }
    forall n | |lead| + |core| <= n < |hay| ensures sp(hay[n]) { assert hay[n] == tail[n - |lead| - |core|]; }
    assert forall k :: 0 <= k < |needle| ==> core[i - |lead| + k] == hay[i + k] == needle[k];
  }

  /** Text that neither starts nor ends with whitespace is still contained after stripping what contains it. */
  lemma StrippingKeeps(sp: Spaces, hay: string, needle: string)
    requires Contains(hay, needle) && (needle != "" ==> !sp(needle[0]) && !sp(needle[|needle| - 1]))
    ensures Contains(StripEnd(sp, SkipSpaces(sp, hay)), needle)
  {
    var core := StripEnd(sp, SkipSpaces(sp, hay));
    if needle == "" {
      ContainsParts("", "", core);
      assert "" + "" + core == core;
    } else {
      var lead, tail := StripParts(sp, hay);
      hide *;
      var i := ContainsAt(hay, needle);
      assert hay == lead + core + tail;
      NeedleInCore(sp, lead, core, tail, needle, i);
      var from := i - |lead|;
      assert needle == core[from..from + |needle|];
      ContainsSlice(core, from, from + |needle|);
    }
  }

  /** Dropping a leading blank leaves what stripping keeps. */
  lemma CoreSurvivesDrop(sp: Spaces, c: string, drop: bool) returns (x: string, y: string)
    requires sp(' ')
    ensures (if drop then DropBlank(c) else c) == x + StripEnd(sp, SkipSpaces(sp, c)) + y
  {
    var core := StripEnd(sp, SkipSpaces(sp, c));
    var lead, tail := StripParts(sp, c);
    if !drop || c == "" || c[0] != ' ' {
      x, y := lead, tail;
    } else if core == "" {
      x, y := "", c[1..];
      assert c[1..] == "" + "" + c[1..];
    } else {
      assert lead == "" ==> c == core + tail;
      assert lead != "";
      assert c[1..] == lead[1..] + core + tail;
      x, y := lead[1..], tail;
    }
  }

  /** Collapsing a text leaves each part of it collapsed in place, possibly without its leading blank. */
  lemma CollapsedMiddle(sp: Spaces, a: string, m: string, b: string) returns (suffix: string)
    requires sp(' ')
    ensures Collapse(sp, a + m + b)
         == Collapse(sp, a) + (if a != "" && sp(a[|a| - 1]) then DropBlank(Collapse(sp, m)) else Collapse(sp, m))
             + suffix
  {
    CollapseConcat(sp, a + m, b);
    CollapseConcat(sp, a, m);
    suffix := if a + m != "" && sp((a + m)[|a + m| - 1]) then DropBlank(Collapse(sp, b)) else Collapse(sp, b);
  }

  /**
   * A leak cannot hide behind whitespace: if the page text contains the redacted string then
   * the normalized page text contains the normalized string.
   */
  lemma NormalizingKeepsLeaks(sp: Spaces, page: string, redacted: string)
    requires sp(' ') && Contains(page, redacted)
    ensures Contains(NormalizeSpaces(sp, page), NormalizeSpaces(sp, redacted))
  {
    var a, b := ContainsSplit(page, redacted);
    var suffix := CollapsedMiddle(sp, a, redacted, b);
    var x, y := CoreSurvivesDrop(sp, Collapse(sp, redacted), a != "" && sp(a[|a| - 1]));
    CoreIsContained(sp, Collapse(sp, page), Collapse(sp, a), x, NormalizeSpaces(sp, redacted), y, suffix);
    var _, _ := StripParts(sp, Collapse(sp, redacted));
    StrippingKeeps(sp, Collapse(sp, page), NormalizeSpaces(sp, redacted));
  }

  lemma CoreIsContained(sp: Spaces, whole: string, front: string, x: string, core: string, y: string, suffix: string)
    requires whole == front + (x + core + y) + suffix
    ensures Contains(whole, core)
  {
    assert whole == (front + x) + core + (y + suffix);
    ContainsParts(front + x, core, y + suffix);
  }

  /** Nor behind a reflow: the string may stand in the page with its whitespace rearranged. */
  lemma ReflowedLeakIsFound(sp: Spaces, page: string, reflowed: string, redacted: string)
    requires sp(' ') && Contains(page, reflowed) && NormalizeSpaces(sp, reflowed) == NormalizeSpaces(sp, redacted)
    ensures Contains(NormalizeSpaces(sp, page), NormalizeSpaces(sp, redacted))
  {
    NormalizingKeepsLeaks(sp, page, reflowed);
  }

  /** No whitespace but single blanks between other characters. */
  predicate SingleSpaced(sp: Spaces, s: string) {
    && (s != "" ==> !sp(s[0]) && !sp(s[|s| - 1]))
    && forall k :: 0 <= k < |s| && sp(s[k]) ==> s[k] == ' ' && (k + 1 < |s| ==> !sp(s[k + 1]))
  }

  lemma {:induction false} CollapseSingleBlanks(sp: Spaces, s: string)
    requires sp(' ')
    ensures forall k :: 0 <= k < |Collapse(sp, s)| && sp(Collapse(sp, s)[k]) ==>
              Collapse(sp, s)[k] == ' ' && (k + 1 < |Collapse(sp, s)| ==> !sp(Collapse(sp, s)[k + 1]))
    ensures s != "" && !sp(s[0]) ==> Collapse(sp, s) != "" && Collapse(sp, s)[0] == s[0]
    ensures s == "" ==> Collapse(sp, s) == ""
    decreases |s|
  {
    if s != "" {
      if sp(s[0]) { CollapseSingleBlanks(sp, SkipSpaces(sp, s[1..])); } else { CollapseSingleBlanks(sp, s[1..]); }
    }
  }

  lemma {:induction false} SingleSpacedIsCollapsed(sp: Spaces, s: string)
    requires sp(' ')
    requires forall k :: 0 <= k < |s| && sp(s[k]) ==> s[k] == ' ' && (k + 1 < |s| ==> !sp(s[k + 1]))
    ensures Collapse(sp, s) == s
  {
    if s != "" {
      assert forall k :: 0 <= k < |s[1..]| ==> s[1..][k] == s[k + 1];
      SingleSpacedIsCollapsed(sp, s[1..]);
    }
  }

  /**
   * Normal forms are single-spaced, and exactly the single-spaced strings are their own normal form; so normalizing
   * twice changes nothing.
   */
  lemma NormalForms(sp: Spaces, s: string)
    requires sp(' ')
    ensures SingleSpaced(sp, NormalizeSpaces(sp, s))
    ensures NormalizeSpaces(sp, s) == s <==> SingleSpaced(sp, s)
    ensures NormalizeSpaces(sp, NormalizeSpaces(sp, s)) == NormalizeSpaces(sp, s)
  {
    NormalFormIsSingleSpaced(sp, s);
    SingleSpacedIsFixed(sp, NormalizeSpaces(sp, s));
    if SingleSpaced(sp, s) { SingleSpacedIsFixed(sp, s); }
  }

  lemma NormalFormIsSingleSpaced(sp: Spaces, s: string)
    requires sp(' ')
    ensures SingleSpaced(sp, NormalizeSpaces(sp, s))
  {
    var c, n := Collapse(sp, s), NormalizeSpaces(sp, s);
    CollapseSingleBlanks(sp, s);
    var lead, tail := StripParts(sp, c);
    forall k | 0 <= k < |n| && sp(n[k]) ensures n[k] == ' ' && (k + 1 < |n| ==> !sp(n[k + 1])) {
      assert c[|lead| + k] == n[k];
      assert k + 1 < |n| ==> c[|lead| + k + 1] == n[k + 1];
    }
  }

  lemma SingleSpacedIsFixed(sp: Spaces, s: string)
    requires sp(' ') && SingleSpaced(sp, s)
    ensures NormalizeSpaces(sp, s) == s
  {
    SingleSpacedIsCollapsed(sp, s);
  }

  // ---------- what containment of normal forms means ----------

  /** The needle stands somewhere in the hay, perhaps with its whitespace rearranged. */
  ghost predicate Shows(sp: Spaces, hay: string, needle: string) {
    exists part :: Contains(hay, part) && NormalizeSpaces(sp, part) == NormalizeSpaces(sp, needle)
  }

  /** A prefix of collapsed text that ends in no whitespace is what some prefix of the text collapses to. */
  lemma {:induction false} PrefixBehind(sp: Spaces, s: string, n: string) returns (part: string, rest: string)
    requires sp(' ') && n != "" && !sp(n[|n| - 1]) && Starts(Collapse(sp, s), n)
    ensures s == part + rest && Collapse(sp, part) == n
    decreases |s|
  {
    var c := Collapse(sp, s);
    assert c[0] == n[0] && c[1..][..|n| - 1] == n[1..];
    if sp(s[0]) {
      var core := SkipSpaces(sp, s[1..]);
      var lead := SkipParts(sp, s[1..]);
      assert Starts(Collapse(sp, core), n[1..]);
      part, rest := PrefixBehind(sp, core, n[1..]);
      LeadCollapses(sp, [s[0]] + lead, part);
      part := [s[0]] + lead + part;
      assert s == [s[0]] + s[1..];
    } else if |n| == 1 {
      part, rest := [s[0]], s[1..];
    } else {
      assert Starts(Collapse(sp, s[1..]), n[1..]);
      part, rest := PrefixBehind(sp, s[1..], n[1..]);
      part := [s[0]] + part;
      assert part[1..] + rest == s[1..];
    }
  }

  /** Whitespace before other text collapses to one blank. */
  lemma LeadCollapses(sp: Spaces, lead: string, s: string)
    requires lead != "" && forall k :: 0 <= k < |lead| ==> sp(lead[k])
    requires s != "" && !sp(s[0])
    ensures Collapse(sp, lead + s) == " " + Collapse(sp, s)
  {
    assert (lead + s)[1..] == lead[1..] + s;
    SkipConcat(sp, lead[1..], s);
    SkipsAll(sp, lead[1..]);
  }

  lemma {:induction false} SkipsAll(sp: Spaces, s: string)
    requires forall k :: 0 <= k < |s| ==> sp(s[k])
    ensures SkipSpaces(sp, s) == ""
  {
    if s != "" { SkipsAll(sp, s[1..]); }
  }

  /** Any end of collapsed text is what some end of the text collapses to. */
  lemma {:induction false} EndBehind(sp: Spaces, s: string, i: nat) returns (lead: string, rest: string)
    requires i <= |Collapse(sp, s)|
    ensures s == lead + rest && Collapse(sp, s)[i..] == Collapse(sp, rest)
    decreases i
  {
    if i == 0 {
      lead, rest := "", s;
    } else {
      var first, more := FirstCollapsed(sp, s);
      lead, rest := EndBehind(sp, more, i - 1);
      assert Collapse(sp, s)[i..] == Collapse(sp, s)[1..][i - 1..];
      lead := first + lead;
    }
  }

  lemma FirstCollapsed(sp: Spaces, s: string) returns (first: string, more: string)
    requires s != ""
    ensures s == first + more && Collapse(sp, s) != "" && Collapse(sp, s)[1..] == Collapse(sp, more)
  {
    if sp(s[0]) {
      first := SkipParts(sp, s[1..]);
      first, more := [s[0]] + first, SkipSpaces(sp, s[1..]);
    } else {
      first, more := [s[0]], s[1..];
    }
  }

  /** What collapsed text contains, ending in no whitespace, some part of the text collapses to. */
  lemma PartBehind(sp: Spaces, s: string, n: string) returns (part: string)
    requires sp(' ') && n != "" && !sp(n[|n| - 1]) && Contains(Collapse(sp, s), n)
    ensures Contains(s, part) && Collapse(sp, part) == n
  {
    var i :| 0 <= i <= |Collapse(sp, s)| && Starts(Collapse(sp, s)[i..], n);
    var lead, end := EndBehind(sp, s, i);
    var rest;
    part, rest := PrefixBehind(sp, end, n);
    hide Collapse;
    ContainsParts(lead, part, rest);
    assert s == lead + part + rest;
  }

  /** One normal form contains another exactly when the one text shows the other, up to whitespace. */
  lemma FoundIffShown(sp: Spaces, hay: string, needle: string)
    requires sp(' ')
    ensures Contains(NormalizeSpaces(sp, hay), NormalizeSpaces(sp, needle)) <==> Shows(sp, hay, needle)
  {
    var n := NormalizeSpaces(sp, needle);
    if Shows(sp, hay, needle) {
      var part :| Contains(hay, part) && NormalizeSpaces(sp, part) == n;
      NormalizingKeepsLeaks(sp, hay, part);
    }
    if Contains(NormalizeSpaces(sp, hay), n) {
      NormalForms(sp, needle);
      var part := "";
      if n == "" {
        ContainsParts("", "", hay);
        assert "" + "" + hay == hay;
      } else {
        var lead, tail := StripParts(sp, Collapse(sp, hay));
        ContainsWider(lead, NormalizeSpaces(sp, hay), tail, n);
        part := PartBehind(sp, hay, n);
      }
      assert NormalizeSpaces(sp, part) == n;
    }
  }

  lemma ContainsWider(before: string, hay: string, after: string, needle: string)
    requires Contains(hay, needle)
    ensures Contains(before + hay + after, needle)
  {
    var x, y := ContainsSplit(hay, needle);
    assert before + hay + after == (before + x) + needle + (y + after);
    ContainsParts(before + x, needle, y + after);
  }

  // ---------- the words of a text ----------

  /** How many characters stand before the first whitespace. */
  function WordLength(sp: Spaces, s: string): (n: nat)
    ensures n <= |s| && (n < |s| ==> sp(s[n])) && forall k :: 0 <= k < n ==> !sp(s[k])
  {
    if s == "" || sp(s[0]) then 0 else 1 + WordLength(sp, s[1..])
  }

  /** The maximal runs of characters other than whitespace, in order. */
  function Words(sp: Spaces, s: string): seq<string>
    decreases |s|
  {
    if s == "" then []
    else if sp(s[0]) then Words(sp, s[1..])
    else var n := WordLength(sp, s); [s[..n]] + Words(sp, s[n..])
  }

  function JoinWords(words: seq<string>): string {
    if words == [] then ""
    else if |words| == 1 then words[0]
    else words[0] + " " + JoinWords(words[1..])
  }

  lemma {:induction false} WordsAfterSpaces(sp: Spaces, s: string)
    ensures Words(sp, SkipSpaces(sp, s)) == Words(sp, s)
  {
    if s != "" && sp(s[0]) { WordsAfterSpaces(sp, s[1..]); }
  }

  lemma {:induction false} WordsAreSolid(sp: Spaces, s: string)
    ensures forall w :: w in Words(sp, s) ==> w != "" && forall k :: 0 <= k < |w| ==> !sp(w[k])
    ensures Words(sp, s) == [] <==> SkipSpaces(sp, s) == ""
    decreases |s|
  {
    if s != "" { WordsAreSolid(sp, if sp(s[0]) then s[1..] else s[WordLength(sp, s)..]); }
  }

  lemma {:induction false} CollapseWord(sp: Spaces, w: string, rest: string)
    requires forall k :: 0 <= k < |w| ==> !sp(w[k])
    ensures Collapse(sp, w + rest) == w + Collapse(sp, rest)
  {
    if w == "" {
      assert w + rest == rest;
    } else {
      assert (w + rest)[1..] == w[1..] + rest;
      CollapseWord(sp, w[1..], rest);
      assert [w[0]] + (w[1..] + Collapse(sp, rest)) == w + Collapse(sp, rest);
    }
  }

  /** Collapsed text that starts with a word is its words with single blanks, and one blank more if it ends in any. */
  lemma {:induction false} CollapseJoins(sp: Spaces, s: string) returns (end: string)
    requires sp(' ') && s != "" && !sp(s[0])
    ensures Collapse(sp, s) == JoinWords(Words(sp, s)) + end && (end == "" || end == " ")
    decreases |s|
  {
    var w, core := FirstWord(sp, s);
    if core == "" {
      end := if Collapse(sp, s) == w then "" else " ";
    } else {
      end := CollapseJoins(sp, core);
      hide Collapse, Words, SkipSpaces;
      assert ([w] + Words(sp, core))[1..] == Words(sp, core) && Words(sp, core) != [];
      assert JoinWords([w] + Words(sp, core)) == w + " " + JoinWords(Words(sp, core));
      assert w + " " + (JoinWords(Words(sp, core)) + end) == w + " " + JoinWords(Words(sp, core)) + end;
    }
  }

  /** Text that starts with a word: the word, and what is left after the whitespace behind it. */
  lemma FirstWord(sp: Spaces, s: string) returns (w: string, core: string)
    requires sp(' ') && s != "" && !sp(s[0])
    ensures |core| < |s| && (core != "" ==> !sp(core[0]))
    ensures core == "" ==> Words(sp, s) == [w] && (Collapse(sp, s) == w || Collapse(sp, s) == w + " ")
    ensures core != "" ==>
              && Words(sp, core) != [] && Words(sp, s) == [w] + Words(sp, core)
              && Collapse(sp, s) == w + " " + Collapse(sp, core)
  {
    var n := WordLength(sp, s);
    var rest := s[n..];
    w := s[..n];
    assert s == w + rest && Words(sp, s) == [w] + Words(sp, rest);
    CollapseWord(sp, w, rest);
    if rest == "" {
      core := "";
      assert Words(sp, rest) == [] && Collapse(sp, rest) == "";
    } else {
      core := AfterWord(sp, rest);
      hide Words, Collapse, SkipSpaces, WordLength;
      assert w + (" " + Collapse(sp, core)) == w + " " + Collapse(sp, core);
      if core == "" { assert Collapse(sp, "") == "" by { NothingCollapses(sp); } }
    }
  }

  lemma NothingCollapses(sp: Spaces)
    ensures Collapse(sp, "") == "" && Words(sp, "") == []
  {
  }

  /** Text that starts with whitespace: what is left after it. */
  lemma AfterWord(sp: Spaces, rest: string) returns (core: string)
    requires rest != "" && sp(rest[0])
    ensures |core| < |rest| && (core != "" ==> !sp(core[0]))
    ensures Words(sp, rest) == Words(sp, core) && Collapse(sp, rest) == " " + Collapse(sp, core)
    ensures Words(sp, core) == [] <==> core == ""
  {
    core := SkipSpaces(sp, rest[1..]);
    WordsAfterSpaces(sp, rest[1..]);
    WordsAreSolid(sp, rest[1..]);
  }

  lemma {:induction false} JoinEndsSolid(sp: Spaces, words: seq<string>)
    requires words != [] && forall w :: w in words ==> w != "" && forall k :: 0 <= k < |w| ==> !sp(w[k])
    ensures var s := JoinWords(words); s != "" && !sp(s[0]) && !sp(s[|s| - 1])
  {
    assert words[0] in words;
    if |words| > 1 {
      forall w | w in words[1..] ensures w in words {}
      JoinEndsSolid(sp, words[1..]);
    }
  }

  /** The normal form is the words of the text joined by single blanks. */
  lemma NormalFormJoinsWords(sp: Spaces, s: string)
    requires sp(' ')
    ensures NormalizeSpaces(sp, s) == JoinWords(Words(sp, s))
  {
    var core, joined := SkipSpaces(sp, s), JoinWords(Words(sp, s));
    CollapseAfterSpaces(sp, s);
    WordsAfterSpaces(sp, s);
    WordsAreSolid(sp, s);
    CollapsedStartsSolid(sp, s);
    if core == "" {
      assert Collapse(sp, core) == "";
    } else {
      var end := CollapseJoins(sp, core);
      JoinEndsSolid(sp, Words(sp, s));
      StripsBlank(sp, joined, end);
    }
  }

  /** Skipping whitespace before collapsing or after it comes to the same. */
  lemma CollapsedStartsSolid(sp: Spaces, s: string)
    requires sp(' ')
    ensures SkipSpaces(sp, Collapse(sp, s)) == Collapse(sp, SkipSpaces(sp, s))
  {
    var core := SkipSpaces(sp, s);
    CollapseAfterSpaces(sp, s);
    assert core != "" ==> Collapse(sp, core)[0] == core[0];
    if Collapse(sp, s) != "" && Collapse(sp, s)[0] == ' ' {
      assert SkipSpaces(sp, Collapse(sp, s)) == SkipSpaces(sp, Collapse(sp, s)[1..]);
    }
  }

  lemma StripsBlank(sp: Spaces, s: string, end: string)
    requires sp(' ') && s != "" && !sp(s[|s| - 1]) && (end == "" || end == " ")
    ensures StripEnd(sp, s + end) == s
  {
    assert s + "" == s;
    assert (s + " ")[..|s|] == s;
  }
}
