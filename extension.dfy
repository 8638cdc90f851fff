/** The text logic of the browser extension's content script: the whitespace normaliser
    (`replace(/\s+/g, " ").trim()`), the patient-name heuristic `getNomePaciente` and the status test
    `hasExactText`. The DOM is abstracted to the `textContent` strings of the elements queried. */
module Extension {
  import opened Common

  // ---------------------------------------------------------------------------------------------
  // Whitespace

  /** The characters JavaScript's `\s` and `String.prototype.trim` treat as white space: the
      ECMAScript WhiteSpace and LineTerminator code points. */
  predicate IsSpace(c: char) {
    || c == '\t' || c == '\n' || c == '\U{000B}' || c == '\U{000C}' || c == '\r' || c == ' '
    || c == '\U{00A0}' || c == '\U{1680}' || ('\U{2000}' <= c <= '\U{200A}')
    || c == '\U{2028}' || c == '\U{2029}' || c == '\U{202F}' || c == '\U{205F}' || c == '\U{3000}'
    || c == '\U{FEFF}'
  }

  /** The non-space characters of `s`, in order. */
  function NonSpace(s: string): string
    decreases |s|
  {
    if s == [] then [] else (if IsSpace(s[0]) then [] else [s[0]]) + NonSpace(s[1..])
  }

  lemma {:induction false} NonSpaceAppend(a: string, b: string)
    ensures NonSpace(a + b) == NonSpace(a) + NonSpace(b)
    decreases |a|
  {
    if a == [] {
      assert a + b == b;
    } else {
      assert (a + b)[0] == a[0] && (a + b)[1..] == a[1..] + b;
      NonSpaceAppend(a[1..], b);
      assert NonSpace(a + b) == (if IsSpace(a[0]) then [] else [a[0]]) + NonSpace(a[1..] + b);
    }
  }

  /** Every white-space character is a plain space. */
  predicate OnlyPlainSpaces(s: string) {
    forall i :: 0 <= i < |s| && IsSpace(s[i]) ==> s[i] == ' '
  }

  /** No two white-space characters are adjacent. */
  predicate NoDoubleSpace(s: string) {
    forall i :: 1 <= i < |s| ==> !(IsSpace(s[i - 1]) && IsSpace(s[i]))
  }

  /** Neither end is white space. */
  predicate Trimmed(s: string) {
    s == [] || (!IsSpace(s[0]) && !IsSpace(s[|s| - 1]))
  }

  /** What the normaliser produces: single plain spaces between words and none at the ends. */
  predicate Normal(s: string) {
    OnlyPlainSpaces(s) && NoDoubleSpace(s) && Trimmed(s)
  }

  /** Drops the white space at the front of `s`: `trimStart`. */
  function SkipSpaces(s: string): (r: string)
    ensures |r| <= |s| && r == s[|s| - |r|..]
    ensures r == [] || !IsSpace(r[0])
    decreases |s|
  {
    if s != [] && IsSpace(s[0]) then SkipSpaces(s[1..]) else s
  }

  /** Drops the white space at the end of `s`. */
  function TrimEnd(s: string): (r: string)
    ensures |r| <= |s| && r == s[..|r|]
    ensures r == [] || !IsSpace(r[|r| - 1])
    decreases |s|
  {
    if s != [] && IsSpace(s[|s| - 1]) then TrimEnd(s[..|s| - 1]) else s
  }

  lemma {:induction false} SkipSpacesKeepsText(s: string)
    ensures NonSpace(SkipSpaces(s)) == NonSpace(s)
    decreases |s|
  {
    if s != [] && IsSpace(s[0]) {
      SkipSpacesKeepsText(s[1..]);
    }
  }

  lemma {:induction false} TrimEndKeepsText(s: string)
    ensures NonSpace(TrimEnd(s)) == NonSpace(s)
    decreases |s|
  {
    if s != [] && IsSpace(s[|s| - 1]) {
      var init := s[..|s| - 1];
      TrimEndKeepsText(init);
      assert s == init + [s[|s| - 1]];
      NonSpaceAppend(init, [s[|s| - 1]]);
      assert NonSpace([s[|s| - 1]]) == [];
    }
  }

  /** `String.prototype.trim` */
  function Trim(s: string): string {
    TrimEnd(SkipSpaces(s))
  }

  /** `trim` keeps one contiguous slice of its input, with no white space at either end and every
      non-space character of the input. */
  lemma TrimShape(s: string) returns (i: nat, j: nat)
    ensures i <= j <= |s| && Trim(s) == s[i..j]
    ensures Trimmed(Trim(s))
    ensures NonSpace(Trim(s)) == NonSpace(s)
  {
    var front := SkipSpaces(s);
    var r := TrimEnd(front);
    i, j := |s| - |front|, |s| - |front| + |r|;
    assert r == s[i..j] by {
      assert front == s[i..] && r == front[..|r|];
    }
    assert Trimmed(r) by {
      if r != [] {
        assert r[0] == front[0];
      }
    }
    assert NonSpace(r) == NonSpace(s) by {
      SkipSpacesKeepsText(s);
      TrimEndKeepsText(front);
    }
  }

  /** Trimming a collapsed string leaves it collapsed. */
  lemma TrimKeepsCollapsed(s: string)
    requires OnlyPlainSpaces(s) && NoDoubleSpace(s)
    ensures OnlyPlainSpaces(Trim(s)) && NoDoubleSpace(Trim(s))
  {
    var i, j := TrimShape(s);
    var t := Trim(s);
    forall k | 0 <= k < |t| && IsSpace(t[k]) ensures t[k] == ' ' {
      assert t[k] == s[i + k];
    }
    forall k | 1 <= k < |t| ensures !(IsSpace(t[k - 1]) && IsSpace(t[k])) {
      assert t[k - 1] == s[i + k - 1] && t[k] == s[i + k];
    }
  }

  /** `.replace(/\s+/g, " ")`: every maximal run of white space becomes one plain space. */
  function Collapse(s: string): (r: string)
    ensures OnlyPlainSpaces(r) && NoDoubleSpace(r)
    ensures r == [] <==> s == []
    ensures s != [] ==> (IsSpace(r[0]) <==> IsSpace(s[0]))
    decreases |s|
  {
    if s == [] then []
    else if IsSpace(s[0]) then " " + Collapse(SkipSpaces(s[1..]))
    else [s[0]] + Collapse(s[1..])
  }

  /** Collapsing keeps every non-space character, in order. */
  lemma {:induction false} CollapseKeepsText(s: string)
    ensures NonSpace(Collapse(s)) == NonSpace(s)
    decreases |s|
  {
    if s != [] {
      if IsSpace(s[0]) {
        var u := SkipSpaces(s[1..]);
        CollapseKeepsText(u);
        SkipSpacesKeepsText(s[1..]);
        NonSpaceAppend(" ", Collapse(u));
        assert NonSpace(s) == NonSpace(s[1..]);
      } else {
        CollapseKeepsText(s[1..]);
        NonSpaceAppend([s[0]], Collapse(s[1..]));
        assert NonSpace(s) == [s[0]] + NonSpace(s[1..]);
      }
    }
  }

  /** The normaliser of lines 57 and 83: `.replace(/\s+/g, " ").trim()`. */
  function Normalize(s: string): string {
    Trim(Collapse(s))
  }

  /** The normal form has single plain spaces between words, none at the ends, and every
      non-space character of the input in order. */
  lemma NormalizeIsNormal(s: string)
    ensures Normal(Normalize(s))
    ensures NonSpace(Normalize(s)) == NonSpace(s)
  {
    CollapseKeepsText(s);
    TrimKeepsCollapsed(Collapse(s));
    var _, _ := TrimShape(Collapse(s));
  }

  /** Collapsing a string that has only single plain spaces changes nothing. */
  lemma {:induction false} CollapseFixes(s: string)
    requires OnlyPlainSpaces(s) && NoDoubleSpace(s)
    ensures Collapse(s) == s
    decreases |s|
  {
    if s != [] {
      assert OnlyPlainSpaces(s[1..]) && NoDoubleSpace(s[1..]) by {
        forall i | 1 <= i < |s[1..]| ensures !(IsSpace(s[1..][i - 1]) && IsSpace(s[1..][i])) {
          assert s[1..][i - 1] == s[i] && s[1..][i] == s[i + 1];
        }
      }
      CollapseFixes(s[1..]);
      if IsSpace(s[0]) {
        assert s[1..] == [] || !IsSpace(s[1]);
        assert SkipSpaces(s[1..]) == s[1..];
        assert s == " " + s[1..];
      } else {
        assert s == [s[0]] + s[1..];
      }
    }
  }

  /** A normal string is its own normal form. */
  lemma NormalizeFixesNormal(s: string)
    requires Normal(s)
    ensures Normalize(s) == s
  {
    CollapseFixes(s);
  }

  /** Normalising twice is normalising once. */
  lemma NormalizeIdempotent(s: string)
    ensures Normalize(Normalize(s)) == Normalize(s)
  {
    NormalizeIsNormal(s);
    NormalizeFixesNormal(Normalize(s));
  }

  // ---------------------------------------------------------------------------------------------
  // The normaliser as words joined by single spaces

  /** The longest prefix of `t` without white space. */
  function TakeWord(t: string): (w: string)
    ensures |w| <= |t| && w == t[..|w|]
    ensures forall i :: 0 <= i < |w| ==> !IsSpace(w[i])
    ensures |w| < |t| ==> IsSpace(t[|w|])
    ensures t != [] && !IsSpace(t[0]) ==> |w| >= 1
    decreases |t|
  {
    if t == [] || IsSpace(t[0]) then [] else [t[0]] + TakeWord(t[1..])
  }

  /** The words of `s`: its maximal runs of non-space characters, in order. */
  function Words(s: string): seq<string>
    decreases |s|
  {
    var t := SkipSpaces(s);
    if t == [] then []
    else
      var w := TakeWord(t);
      [w] + Words(t[|w|..])
  }

  /** A non-empty run of non-space characters. */
  predicate IsWord(w: string) {
    w != [] && forall i :: 0 <= i < |w| ==> !IsSpace(w[i])
  }

  /** Every word of a text is a non-empty run of non-space characters. */
  lemma {:induction false} WordsAreWords(s: string)
    ensures forall k :: 0 <= k < |Words(s)| ==> IsWord(Words(s)[k])
    decreases |s|
  {
    var t := SkipSpaces(s);
    if t != [] {
      var w := TakeWord(t);
      var tail := Words(t[|w|..]);
      WordsAreWords(t[|w|..]);
      assert IsWord(w);
      assert Words(s) == [w] + tail;
    }
  }

  /** The words separated by one plain space each. */
  function Join(words: seq<string>): string
    decreases |words|
  {
    if words == [] then []
    else if |words| == 1 then words[0]
    else words[0] + " " + Join(words[1..])
  }

  /** A word in front passes through the collapsing unchanged. */
  lemma {:induction false} CollapseWord(w: string, t: string)
    requires forall i :: 0 <= i < |w| ==> !IsSpace(w[i])
    ensures Collapse(w + t) == w + Collapse(t)
    decreases |w|
  {
    if w == [] {
      assert w + t == t;
    } else {
      assert (w + t)[0] == w[0] && (w + t)[1..] == w[1..] + t;
      assert Collapse(w + t) == [w[0]] + Collapse(w[1..] + t);
      CollapseWord(w[1..], t);
      assert [w[0]] + (w[1..] + Collapse(t)) == w + Collapse(t);
    }
  }

  /** Trailing white space behind text that starts with a non-space character is all `TrimEnd`
      removes. */
  lemma {:induction false} TrimEndBehind(a: string, b: string)
    requires b != [] && !IsSpace(b[0])
    ensures TrimEnd(a + b) == a + TrimEnd(b)
    decreases |b|
  {
    var ab := a + b;
    if IsSpace(b[|b| - 1]) {
      var b' := b[..|b| - 1];
      assert ab[|ab| - 1] == b[|b| - 1];
      assert ab[..|ab| - 1] == a + b';
      TrimEndBehind(a, b');
    }
  }

  /** Text that `SkipSpaces` empties ends in white space. */
  lemma {:induction false} SkipSpacesAllSpace(x: string)
    requires x != [] && SkipSpaces(x) == []
    ensures IsSpace(x[|x| - 1])
    decreases |x|
  {
    if |x| > 1 {
      SkipSpacesAllSpace(x[1..]);
      assert x[1..][|x| - 2] == x[|x| - 1];
    }
  }

  lemma Assoc(a: string, b: string, c: string)
    ensures a + (b + c) == a + b + c
    ensures "" + a == a
  {
  }

  /** A non-empty suffix of `x` ends where `x` ends. */
  lemma SuffixLast(x: string, y: string)
    requires y != [] && |y| <= |x| && y == x[|x| - |y|..]
    ensures y[|y| - 1] == x[|x| - 1]
  {
  }

  /** Text that starts with a word: that word, then the rest of the text. */
  lemma WordStep(u: string)
    requires u != [] && !IsSpace(u[0])
    ensures var w := TakeWord(u);
      && u == w + u[|w|..]
      && Words(u) == [w] + Words(u[|w|..])
      && Collapse(u) == w + Collapse(u[|w|..])
      && (u[|w|..] == [] ==> !IsSpace(u[|u| - 1]))
      && (u[|w|..] != [] ==> IsSpace(u[|w|..][0]))
  {
    var w := TakeWord(u);
    var rest := u[|w|..];
    assert u == w + rest;
    assert SkipSpaces(u) == u;
    CollapseWord(w, rest);
    if rest == [] {
      assert u[|u| - 1] == w[|w| - 1];
    }
  }

  /** Text that starts with white space: one space, then the text after the run. */
  lemma GapStep(rest: string)
    requires rest != [] && IsSpace(rest[0])
    ensures var v := SkipSpaces(rest);
      && Collapse(rest) == " " + Collapse(v)
      && Words(rest) == Words(v)
      && (v == [] || !IsSpace(v[0]))
      && |v| < |rest|
      && (v == [] ==> IsSpace(rest[|rest| - 1]))
  {
    var v := SkipSpaces(rest);
    assert SkipSpaces(rest[1..]) == v;
    assert SkipSpaces(v) == v;
    if v == [] {
      SkipSpacesAllSpace(rest);
    }
  }

  /** A word, one space and more text: the space stays in place when trailing white space goes. */
  lemma JoinGap(w: string, cv: string, ws: seq<string>)
    requires cv != [] && !IsSpace(cv[0]) && ws != []
    ensures TrimEnd(w + (" " + cv)) == w + " " + TrimEnd(cv)
    ensures Join([w] + ws) == w + " " + Join(ws)
  {
    assert w + (" " + cv) == (w + " ") + cv;
    TrimEndBehind(w + " ", cv);
    assert ([w] + ws)[1..] == ws;
  }

  /** Collapsing and then dropping trailing white space of text that starts with a word gives its
      words joined by single spaces. */
  lemma {:induction false} TrimEndCollapseWords(u: string)
    requires u == [] || !IsSpace(u[0])
    ensures TrimEnd(Collapse(u)) == Join(Words(u))
    decreases |u|
  {
    if u != [] {
      var w := TakeWord(u);
      var rest := u[|w|..];
      WordStep(u);
      if rest == [] {
        assert Words(rest) == [] && Collapse(rest) == [];
        assert Collapse(u) == w by {
          assert w + [] == w;
        }
      } else {
        var v := SkipSpaces(rest);
        GapStep(rest);
        if v == [] {
          assert Words(rest) == [] && Collapse(v) == [];
          assert Collapse(u) == w + " ";
          assert TrimEnd(w + " ") == w by {
            assert (w + " ")[..|w|] == w;
          }
        } else {
          TrimEndCollapseWords(v);
          assert Words(v) != [] by {
            assert SkipSpaces(v) == v;
          }
          JoinGap(w, Collapse(v), Words(v));
        }
      }
    }
  }

  /** One plain space when `b` holds, nothing otherwise. */
  function Space(b: bool): string {
    if b then " " else ""
  }

  predicate StartsInSpace(u: string) {
    u != [] && IsSpace(u[0])
  }

  predicate EndsInSpace(u: string) {
    u != [] && IsSpace(u[|u| - 1])
  }

  /** Collapsing `u` gives its words joined by single spaces, then one space if `u` ends in
      white space. */
  predicate CollapsesToWords(u: string) {
    Collapse(u) == Join(Words(u)) + Space(EndsInSpace(u))
  }

  /** The word, the space kept from the gap, and the rest of the collapsed text. */
  lemma GapJoin(w: string, jv: string, tl: string, ws: seq<string>)
    requires ws != [] && Join(ws) == jv
    ensures w + (" " + (jv + tl)) == Join([w] + ws) + tl
  {
    assert ([w] + ws)[1..] == ws;
    assert Join([w] + ws) == w + " " + jv;
  }

  /** A text that is one word. */
  lemma CollapseOneWord(u: string)
    requires u != [] && !IsSpace(u[0]) && u[|TakeWord(u)|..] == []
    ensures CollapsesToWords(u)
  {
    var w := TakeWord(u);
    WordStep(u);
    assert Words(u[|w|..]) == [] && Collapse(u[|w|..]) == [];
    assert w + [] == w;
  }

  /** A text that is one word and then white space. */
  lemma CollapseWordThenGap(u: string)
    requires u != [] && !IsSpace(u[0])
    requires var rest := u[|TakeWord(u)|..]; rest != [] && SkipSpaces(rest) == []
    ensures CollapsesToWords(u)
  {
    var w := TakeWord(u);
    var rest := u[|w|..];
    WordStep(u);
    GapStep(rest);
    assert Words(rest) == [] && Collapse(SkipSpaces(rest)) == [];
    assert Collapse(rest) == " ";
    assert Collapse(u) == w + " ";
    assert Words(u) == [w];
    assert Join(Words(u)) == w;
    assert IsSpace(rest[|rest| - 1]);
    SuffixLast(u, rest);
    assert EndsInSpace(u);
  }

  /** A word, a gap and more text end where that text ends. */
  lemma WordGapEnds(u: string)
    requires u != [] && !IsSpace(u[0])
    requires var rest := u[|TakeWord(u)|..]; rest != [] && SkipSpaces(rest) != []
    ensures EndsInSpace(u) == EndsInSpace(SkipSpaces(u[|TakeWord(u)|..]))
  {
    var rest := u[|TakeWord(u)|..];
    SuffixLast(u, rest);
    SuffixLast(rest, SkipSpaces(rest));
  }

  /** A word, a gap, and more words: the gap becomes one space in front of the rest. */
  lemma CollapseWordGapMore(u: string)
    requires u != [] && !IsSpace(u[0])
    requires var rest := u[|TakeWord(u)|..]; rest != [] && SkipSpaces(rest) != []
    requires CollapsesToWords(SkipSpaces(u[|TakeWord(u)|..]))
    ensures CollapsesToWords(u)
  {
    var w := TakeWord(u);
    var rest := u[|w|..];
    var v := SkipSpaces(rest);
    var jv, tl := Join(Words(v)), Space(EndsInSpace(v));
    assert Collapse(u) == w + (" " + (jv + tl)) && Words(u) == [w] + Words(v) by {
      WordStep(u);
      GapStep(rest);
      assert Collapse(v) == jv + tl;
    }
    assert Words(v) != [] by {
      assert SkipSpaces(v) == v;
    }
    GapJoin(w, jv, tl, Words(v));
    WordGapEnds(u);
  }

  /** Collapsing text that starts with a word: its words joined by single spaces, and one more
      space when the text ends in white space. */
  lemma {:induction false} CollapseWordsFrom(u: string)
    requires u == [] || !IsSpace(u[0])
    ensures CollapsesToWords(u)
    decreases |u|
  {
    if u != [] {
      var rest := u[|TakeWord(u)|..];
      WordStep(u);
      if rest == [] {
        CollapseOneWord(u);
      } else if SkipSpaces(rest) == [] {
        CollapseWordThenGap(u);
      } else {
        GapStep(rest);
        CollapseWordsFrom(SkipSpaces(rest));
        CollapseWordGapMore(u);
      }
    }
  }

  /** Text that starts with white space collapses to one space in front of the rest. */
  lemma CollapseLeadingGap(s: string)
    requires StartsInSpace(s)
    ensures Collapse(s) == " " + Join(Words(s)) + Space(Words(s) != [] && EndsInSpace(s))
  {
    var t := SkipSpaces(s);
    assert SkipSpaces(s[1..]) == t;
    assert SkipSpaces(t) == t;
    assert Words(s) == Words(t);
    CollapseWordsFrom(t);
    if t == [] {
      assert Words(t) == [] && Collapse(t) == [];
      assert Collapse(s) == " ";
    } else {
      assert EndsInSpace(t) == EndsInSpace(s) by {
        SuffixLast(s, t);
      }
      assert Words(t) != [];
      var tl := Space(EndsInSpace(s));
      assert Collapse(s) == " " + (Join(Words(t)) + tl);
      Assoc(" ", Join(Words(t)), tl);
    }
  }

  /** `.replace(/\s+/g, " ")` exactly: the words of the text in order with one plain space between
      neighbours, plus one space in front when the text starts with white space and one behind
      when it has a word and ends with white space. */
  lemma CollapseIsWordsJoined(s: string)
    ensures Collapse(s) ==
      Space(StartsInSpace(s)) + Join(Words(s)) + Space(Words(s) != [] && EndsInSpace(s))
  {
    if StartsInSpace(s) {
      CollapseLeadingGap(s);
    } else {
      CollapseWordsFrom(s);
      if s != [] {
        WordStep(s);
        assert Words(s) != [];
      } else {
        assert Words(s) == [];
      }
      var tl := Space(Words(s) != [] && EndsInSpace(s));
      assert Collapse(s) == Join(Words(s)) + tl;
      Assoc(Join(Words(s)), tl, "");
    }
  }

  /** Collapsing first and skipping the leading white space afterwards is skipping it first. */
  lemma SkipSpacesCollapse(s: string)
    ensures SkipSpaces(Collapse(s)) == Collapse(SkipSpaces(s))
  {
    if s != [] && IsSpace(s[0]) {
      var t := SkipSpaces(s[1..]);
      assert SkipSpaces(s) == t;
      assert SkipSpaces(" " + Collapse(t)) == SkipSpaces(Collapse(t));
    }
  }

  /** Where the spaces go: the normal form of any text is its words, in order, with exactly one
      plain space between neighbours, so every white-space run between two words becomes one
      space and nothing else changes. */
  lemma NormalizeJoinsWords(s: string)
    ensures Normalize(s) == Join(Words(s))
  {
    SkipSpacesCollapse(s);
    var t := SkipSpaces(s);
    assert SkipSpaces(t) == t;
    TrimEndCollapseWords(t);
  }

  // ---------------------------------------------------------------------------------------------
  // getNomePaciente

  /** Status labels that are never a patient name. */
  const Blacklist: seq<string> :=
    ["Aguardando atendimento", "Em atendimento", "Finalizado", "Não agendado", "DEMANDA ESPONTÂNEA"]

  /** `b` occurs in `t` starting at position `i`. */
  predicate OccursAt(t: string, b: string, i: nat) {
    i + |b| <= |t| && t[i..i + |b|] == b
  }

  /** `t.includes(b)` */
  predicate Contains(t: string, b: string) {
    exists i: nat :: i <= |t| && OccursAt(t, b, i)
  }

  /** `/^\d{2}:\d{2}$/.test(t)` */
  predicate IsClockText(t: string) {
    |t| == 5 && IsDigit(t[0]) && IsDigit(t[1]) && t[2] == ':' && IsDigit(t[3]) && IsDigit(t[4])
  }

  /** The upper-case form of one character, for Basic Latin and Latin-1 (which hold every letter of
      the blacklist and the name pattern); other characters are left unchanged. */
  function UpperOf(c: char): string {
    if 'a' <= c <= 'z' || ('\U{00E0}' <= c <= '\U{00FE}' && c != '\U{00F7}') then [(c as int - 32) as char]
    else if c == '\U{00DF}' then "SS"
    else if c == '\U{00FF}' then "\U{0178}"
    else if c == '\U{00B5}' then "\U{039C}"
    else [c]
  }

  /** `t.toUpperCase()` */
  function ToUpper(t: string): string
    decreases |t|
  {
    if t == [] then [] else UpperOf(t[0]) + ToUpper(t[1..])
  }

  /** `/[A-ZÁÉÍÓÚÂÊÔÃÕÇ]/.test(t)` */
  predicate HasNameLetter(t: string) {
    exists i :: 0 <= i < |t| && ('A' <= t[i] <= 'Z' || t[i] in "ÁÉÍÓÚÂÊÔÃÕÇ")
  }

  /** The filter of lines 61-70: not a status label, not an age, not a time, at least eight
      characters long, all capitals, and holding a capital letter. */
  predicate IsCandidate(t: string) {
    && (forall b :: b in Blacklist ==> !Contains(t, b))
    && !Contains(t, "anos")
    && !IsClockText(t)
    && |t| >= 8
    && t == ToUpper(t)
    && HasNameLetter(t)
  }

  /** The texts that are not empty, in order. */
  function NonEmpty(texts: seq<string>): (r: seq<string>)
    ensures forall t :: t in r <==> t in texts && t != []
    decreases |texts|
  {
    if texts == [] then [] else (if texts[0] == [] then [] else [texts[0]]) + NonEmpty(texts[1..])
  }

  /** The normalised text of every span, in span order. */
  function NormalizedTexts(spans: seq<string>): (r: seq<string>)
    ensures |r| == |spans| && forall k :: 0 <= k < |spans| ==> r[k] == Normalize(spans[k])
  {
    seq(|spans|, k requires 0 <= k < |spans| => Normalize(spans[k]))
  }

  /** The normalised text of every span, dropping the empty ones. */
  function SpanTexts(spans: seq<string>): (r: seq<string>)
    ensures forall t :: t in r <==> t in NormalizedTexts(spans) && t != []
  {
    NonEmpty(NormalizedTexts(spans))
  }

  /** `texts.filter(p)`: the texts that pass `p`, in order. */
  function Keep(p: string -> bool, texts: seq<string>): (r: seq<string>)
    ensures forall t :: t in r <==> t in texts && p(t)
    decreases |texts|
  {
    if texts == [] then []
    else (if p(texts[0]) then [texts[0]] else []) + Keep(p, texts[1..])
  }

  /** `spans.filter(...)`: the candidates, in span order. */
  function Candidates(texts: seq<string>): (r: seq<string>)
    ensures forall t :: t in r <==> t in texts && IsCandidate(t)
  {
    Keep(IsCandidate, texts)
  }

  /** Position of the first longest string: what `sort((a, b) => b.length - a.length)[0]` yields,
      the sort being stable. */
  function FirstLongest(c: seq<string>): (r: nat)
    requires c != []
    ensures r < |c|
    ensures forall j :: 0 <= j < |c| ==> |c[j]| <= |c[r]|
    ensures forall j :: 0 <= j < r ==> |c[j]| < |c[r]|
    decreases |c|
  {
    if |c| == 1 then 0
    else
      var k := FirstLongest(c[..|c| - 1]);
      if |c[|c| - 1]| > |c[k]| then |c| - 1 else k
  }

  /** getNomePaciente over the `textContent` of the card's spans. */
  function GetNomePaciente(spans: seq<string>): string {
    var c := Candidates(SpanTexts(spans));
    if c == [] then "" else c[FirstLongest(c)]
  }

  /** A name found passes every rule of the filter and is the normal form of some span's text. */
  lemma NomeIsCandidate(spans: seq<string>)
    requires GetNomePaciente(spans) != ""
    ensures var r := GetNomePaciente(spans);
      && (forall b :: b in Blacklist ==> !Contains(r, b))
      && !Contains(r, "anos") && !IsClockText(r) && |r| >= 8
      && r == ToUpper(r) && HasNameLetter(r)
      && Normal(r)
      && exists i :: 0 <= i < |spans| && r == Normalize(spans[i])
  {
    var c := Candidates(SpanTexts(spans));
    assert c[FirstLongest(c)] in c;
    var i :| 0 <= i < |spans| && c[FirstLongest(c)] == Normalize(spans[i]);
    NormalizeIsNormal(spans[i]);
  }

  /** The name found is a longest candidate, and no earlier candidate is as long. */
  lemma NomeIsFirstLongest(spans: seq<string>)
    requires GetNomePaciente(spans) != ""
    ensures var c, r := Candidates(SpanTexts(spans)), GetNomePaciente(spans);
      && (forall t :: t in c ==> |t| <= |r|)
      && exists k :: 0 <= k < |c| && c[k] == r && forall j :: 0 <= j < k ==> |c[j]| < |r|
  {
    var c := Candidates(SpanTexts(spans));
    var k := FirstLongest(c);
    forall t | t in c ensures |t| <= |c[k]| {
      var j :| 0 <= j < |c| && c[j] == t;
    }
    assert c[k] == GetNomePaciente(spans);
  }

  /** `filter(Boolean)` keeps order: filtering a concatenation filters each part. */
  lemma {:induction false} NonEmptyAppend(a: seq<string>, b: seq<string>)
    ensures NonEmpty(a + b) == NonEmpty(a) + NonEmpty(b)
    decreases |a|
  {
    if a == [] {
      assert a + b == b;
    } else {
      assert (a + b)[0] == a[0] && (a + b)[1..] == a[1..] + b;
      NonEmptyAppend(a[1..], b);
    }
  }

  /** A filter keeps order: filtering a concatenation filters each part. */
  lemma {:induction false} KeepAppend(p: string -> bool, a: seq<string>, b: seq<string>)
    ensures Keep(p, a + b) == Keep(p, a) + Keep(p, b)
    decreases |a|
  {
    if a == [] {
      assert a + b == b;
    } else {
      assert (a + b)[0] == a[0] && (a + b)[1..] == a[1..] + b;
      KeepAppend(p, a[1..], b);
    }
  }

  /** The name filter keeps order: filtering a concatenation filters each part. */
  lemma CandidatesAppend(a: seq<string>, b: seq<string>)
    ensures Candidates(a + b) == Candidates(a) + Candidates(b)
  {
    KeepAppend(IsCandidate, a, b);
  }

  /** One more text adds itself, when it is not empty and passes `p`, after what the two filters
      keep of the earlier texts. */
  lemma KeepNonEmptyAppend(p: string -> bool, texts: seq<string>, t: string)
    ensures Keep(p, NonEmpty(texts + [t])) ==
      Keep(p, NonEmpty(texts)) + (if t != [] && p(t) then [t] else [])
  {
    NonEmptyAppend(texts, [t]);
    assert [t][1..] == [];
    var tail := if t == [] then [] else [t];
    assert NonEmpty([t]) == tail;
    KeepAppend(p, NonEmpty(texts), tail);
    if t != [] {
      assert [t][1..] == [];
      assert Keep(p, [t]) == (if p(t) then [t] else []);
    }
  }

  /** Appending one string to the sequence `FirstLongest` scans: the new one wins only when it is
      strictly longer. */
  lemma FirstLongestSnoc(c: seq<string>, t: string)
    requires c != []
    ensures FirstLongest(c + [t]) == if |t| > |c[FirstLongest(c)]| then |c| else FirstLongest(c)
  {
    assert (c + [t])[..|c|] == c;
  }

  /** Text `i` of `texts` is `r`, which is kept by the two filters; no kept text is longer, and
      every kept text before `i` is strictly shorter. */
  predicate EarliestLongestAt(p: string -> bool, texts: seq<string>, i: int, r: string) {
    && 0 <= i < |texts| && texts[i] == r && r != [] && p(r)
    && (forall j :: 0 <= j < |texts| && texts[j] != [] && p(texts[j]) ==> |texts[j]| <= |r|)
    && (forall j :: 0 <= j < i && texts[j] != [] && p(texts[j]) ==> |texts[j]| < |r|)
  }

  /** A text that is not kept, or kept but no longer than `r`, leaves `r` where it was. */
  lemma EarliestLongestKeeps(p: string -> bool, s: seq<string>, t: string, i: int, r: string)
    requires EarliestLongestAt(p, s, i, r)
    requires t != [] && p(t) ==> |t| <= |r|
    ensures EarliestLongestAt(p, s + [t], i, r)
  {
    assert forall j :: 0 <= j < |s| ==> (s + [t])[j] == s[j];
  }

  /** A kept text strictly longer than every earlier kept text takes the place. */
  lemma EarliestLongestMoves(p: string -> bool, s: seq<string>, t: string)
    requires t != [] && p(t)
    requires forall j :: 0 <= j < |s| && s[j] != [] && p(s[j]) ==> |s[j]| < |t|
    ensures EarliestLongestAt(p, s + [t], |s|, t)
  {
    assert forall j :: 0 <= j < |s| ==> (s + [t])[j] == s[j];
  }

  /** The first text kept by the two filters is the first longest one so far. */
  lemma EarliestLongestFirst(p: string -> bool, s: seq<string>, t: string)
    requires Keep(p, NonEmpty(s)) == [] && t != [] && p(t)
    ensures var c := Keep(p, NonEmpty(s + [t]));
      c != [] && EarliestLongestAt(p, s + [t], |s|, c[FirstLongest(c)])
  {
    KeepNonEmptyAppend(p, s, t);
    forall j | 0 <= j < |s| ensures !(s[j] != [] && p(s[j])) {
      assert s[j] in s;
    }
    EarliestLongestMoves(p, s, t);
  }

  /** One more text keeps the first longest kept text in place, or takes its place when it is
      kept and strictly longer. */
  lemma EarliestLongestStep(p: string -> bool, s: seq<string>, t: string, i: int)
    requires Keep(p, NonEmpty(s)) != []
    requires var c := Keep(p, NonEmpty(s)); EarliestLongestAt(p, s, i, c[FirstLongest(c)])
    ensures var c := Keep(p, NonEmpty(s + [t]));
      c != [] && exists i' :: EarliestLongestAt(p, s + [t], i', c[FirstLongest(c)])
  {
    KeepNonEmptyAppend(p, s, t);
    var c := Keep(p, NonEmpty(s));
    var c' := Keep(p, NonEmpty(s + [t]));
    var k := FirstLongest(c);
    if t != [] && p(t) {
      assert c' == c + [t];
      FirstLongestSnoc(c, t);
      if |t| > |c[k]| {
        assert c'[FirstLongest(c')] == t;
        EarliestLongestMoves(p, s, t);
        assert EarliestLongestAt(p, s + [t], |s|, c'[FirstLongest(c')]);
      } else {
        assert c'[FirstLongest(c')] == c[k];
        EarliestLongestKeeps(p, s, t, i, c[k]);
      }
    } else {
      assert c' == c;
      EarliestLongestKeeps(p, s, t, i, c[k]);
    }
  }

  /** The first longest text kept by the two filters, located in the unfiltered sequence. */
  lemma {:induction false} EarliestLongestKept(p: string -> bool, texts: seq<string>)
    requires Keep(p, NonEmpty(texts)) != []
    ensures var c := Keep(p, NonEmpty(texts));
      exists i :: EarliestLongestAt(p, texts, i, c[FirstLongest(c)])
    decreases |texts|
  {
    assert |texts| > 0 by {
      var c := Keep(p, NonEmpty(texts));
      assert c[0] in c;
      assert c[0] in texts;
    }
    var n := |texts| - 1;
    var s, t := texts[..n], texts[n];
    assert texts == s + [t];
    if Keep(p, NonEmpty(s)) == [] {
      KeepNonEmptyAppend(p, s, t);
      EarliestLongestFirst(p, s, t);
    } else {
      EarliestLongestKept(p, s);
      var c := Keep(p, NonEmpty(s));
      var i :| EarliestLongestAt(p, s, i, c[FirstLongest(c)]);
      EarliestLongestStep(p, s, t, i);
    }
  }

  /** The kept text at `i` read back as the normalised text of span `i`. */
  lemma EarliestLongestSpan(spans: seq<string>, texts: seq<string>, i: int, r: string)
    requires |texts| == |spans| && forall k :: 0 <= k < |spans| ==> texts[k] == Normalize(spans[k])
    requires EarliestLongestAt(IsCandidate, texts, i, r)
    ensures 0 <= i < |spans| && Normalize(spans[i]) == r && IsCandidate(r)
    ensures forall j :: 0 <= j < |spans| && IsCandidate(Normalize(spans[j])) ==> |Normalize(spans[j])| <= |r|
    ensures forall j :: 0 <= j < i && IsCandidate(Normalize(spans[j])) ==> |Normalize(spans[j])| < |r|
  {
    forall j | 0 <= j < |spans| && IsCandidate(texts[j]) ensures texts[j] != [] {
      assert |texts[j]| >= 8;
    }
  }

  /** The tie-break of the stable sort, in terms of the card's spans: the name found is the text
      of some span `i`, no span's text that passes the filter is longer, and every span before
      `i` whose text passes the filter is strictly shorter. */
  lemma NomeIsEarliestLongest(spans: seq<string>)
    requires GetNomePaciente(spans) != ""
    ensures var r := GetNomePaciente(spans);
      exists i :: 0 <= i < |spans| && Normalize(spans[i]) == r && IsCandidate(r)
        && (forall j :: 0 <= j < |spans| && IsCandidate(Normalize(spans[j])) ==> |Normalize(spans[j])| <= |r|)
        && (forall j :: 0 <= j < i && IsCandidate(Normalize(spans[j])) ==> |Normalize(spans[j])| < |r|)
  {
    var texts := NormalizedTexts(spans);
    var c := Keep(IsCandidate, NonEmpty(texts));
    var r := c[FirstLongest(c)];
    assert GetNomePaciente(spans) == r;
    assert exists i :: EarliestLongestAt(IsCandidate, texts, i, r) by {
      EarliestLongestKept(IsCandidate, texts);
    }
    var i :| EarliestLongestAt(IsCandidate, texts, i, r);
    EarliestLongestSpan(spans, texts, i, r);
  }

  /** getNomePaciente gives "" exactly when no normalised span text passes the filter. */
  lemma NomeEmptyIff(spans: seq<string>)
    ensures GetNomePaciente(spans) == "" <==>
      forall i :: 0 <= i < |spans| && Normalize(spans[i]) != "" ==> !IsCandidate(Normalize(spans[i]))
  {
    var c := Candidates(SpanTexts(spans));
    if c != [] {
      var k := FirstLongest(c);
      assert c[k] in c && |c[k]| >= 8;
      assert c[k] in SpanTexts(spans);
    } else {
      forall i | 0 <= i < |spans| && Normalize(spans[i]) != ""
        ensures !IsCandidate(Normalize(spans[i]))
      {
        assert Normalize(spans[i]) in SpanTexts(spans);
      }
    }
  }

  /** getUsuarioLogado: the normalised text of the user-menu element, "" when it is missing. */
  function LoggedUser(menuText: Option<string>): (r: string)
    ensures Normal(r)
    ensures menuText.None? ==> r == ""
    ensures menuText.Some? ==> NonSpace(r) == NonSpace(menuText.value)
    ensures menuText.Some? ==> r == Join(Words(menuText.value))
  {
    var text := if menuText.Some? then menuText.value else "";
    NormalizeIsNormal(text);
    NormalizeJoinsWords(text);
    Normalize(text)
  }

  // ---------------------------------------------------------------------------------------------
  // hasExactText

  /** hasExactText over the `textContent` of the card's `span, div, p, small` elements: true as
      soon as one trimmed text equals `text`. */
  method HasExactText(texts: seq<string>, text: string) returns (found: bool)
    ensures found <==> exists i :: 0 <= i < |texts| && Trim(texts[i]) == text
  {
    for i := 0 to |texts|
      invariant forall j :: 0 <= j < i ==> Trim(texts[j]) != text
    {
      if Trim(texts[i]) == text {
        return true;
      }
    }
    return false;
  }
}
