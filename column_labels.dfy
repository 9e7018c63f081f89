/** Normalisation of the header labels of the loaded table.

    The loader strips each label, then replaces every space with an underscore,
    deletes every opening and closing parenthesis, and finally replaces every
    hyphen with an underscore. Each step is a literal, replace-all string
    operation; none of them is a regular expression. Labels are sequences of
    characters and the header is a sequence of labels.
 */
module ColumnLabels {

  type Label = seq<char>

  /** The characters Python's `str.strip()` (without arguments) removes: those
      for which `str.isspace()` holds. */
  predicate IsWhitespace(c: char) {
    c == ' ' || c == '\t' || c == '\n' || c == '\r' || c == '\U{0B}' || c == '\U{0C}'
    || ('\U{1C}' <= c <= '\U{1F}')
    || c == '\U{85}' || c == '\U{A0}' || c == '\U{1680}'
    || ('\U{2000}' <= c <= '\U{200A}')
    || c == '\U{2028}' || c == '\U{2029}' || c == '\U{202F}' || c == '\U{205F}' || c == '\U{3000}'
  }

  /** True when no character of `s` is whitespace. */
  predicate NoWhitespace(s: Label) {
    forall i :: 0 <= i < |s| ==> !IsWhitespace(s[i])
  }

  /** True when every character of `s` is whitespace. */
  predicate AllWhitespace(s: Label) {
    forall i :: 0 <= i < |s| ==> IsWhitespace(s[i])
  }

  /** Removes the longest all-whitespace prefix. */
  function StripLeading(s: Label): (r: Label)
    ensures r == [] || !IsWhitespace(r[0])
  {
    if s == [] || !IsWhitespace(s[0]) then s else StripLeading(s[1..])
  }

  /** Removes the longest all-whitespace suffix. */
  function StripTrailing(s: Label): (r: Label)
    ensures r == [] || !IsWhitespace(r[|r| - 1])
  {
    if s == [] || !IsWhitespace(s[|s| - 1]) then s else StripTrailing(s[..|s| - 1])
  }

  /** What StripLeading removes is a prefix made of whitespace. */
  lemma {:induction false} StripLeadingIsSuffix(s: Label)
    ensures |StripLeading(s)| <= |s|
    ensures StripLeading(s) == s[|s| - |StripLeading(s)|..]
    ensures AllWhitespace(s[..|s| - |StripLeading(s)|])
  {
    if s != [] && IsWhitespace(s[0]) {
      StripLeadingIsSuffix(s[1..]);
      var k := |s| - |StripLeading(s)|;
      assert s[1..][k - 1..] == s[k..];
      assert forall i :: 1 <= i < k ==> s[i] == s[1..][..k - 1][i - 1];
    }
  }

  /** What StripTrailing removes is a suffix made of whitespace. */
  lemma {:induction false} StripTrailingIsPrefix(s: Label)
    ensures |StripTrailing(s)| <= |s|
    ensures StripTrailing(s) == s[..|StripTrailing(s)|]
    ensures AllWhitespace(s[|StripTrailing(s)|..])
  {
    if s != [] && IsWhitespace(s[|s| - 1]) {
      var t := s[..|s| - 1];
      StripTrailingIsPrefix(t);
      var k := |StripTrailing(s)|;
      assert t[..k] == s[..k];
      assert forall i :: k <= i < |s| - 1 ==> s[i] == t[k..][i - k];
    }
  }

  /** `str.strip()`: whitespace is removed from both ends. */
  function Strip(s: Label): (r: Label)
    ensures |r| <= |s|
    ensures r == [] || (!IsWhitespace(r[0]) && !IsWhitespace(r[|r| - 1]))
  {
    var t := StripLeading(s);
    StripLeadingIsSuffix(s);
    StripTrailingIsPrefix(t);
    StripTrailing(t)
  }

  /** Strip removes whitespace from the two ends and nothing else: its result
      is a slice of the input between two all-whitespace runs. */
  lemma StripIsSlice(s: Label)
    ensures exists i :: 0 <= i <= |s| - |Strip(s)| && Strip(s) == s[i..i + |Strip(s)|]
                        && AllWhitespace(s[..i]) && AllWhitespace(s[i + |Strip(s)|..])
  {
    var t := StripLeading(s);
    var r := StripTrailing(t);
    StripLeadingIsSuffix(s);
    StripTrailingIsPrefix(t);
    var i := |s| - |t|;
    assert r == s[i..i + |r|];
    assert t[|r|..] == s[i + |r|..];
  }

  /** Every character left by Strip comes from its input. */
  lemma StripKeepsChars(s: Label, x: char)
    requires x in Strip(s)
    ensures x in s
  {
    var t := StripLeading(s);
    StripLeadingIsSuffix(s);
    StripTrailingIsPrefix(t);
    assert x in t;
  }

  /** Literal replace-all of one character by another (`str.replace(a, b)`). */
  function ReplaceAll(s: Label, from: char, to: char): (r: Label)
    ensures |r| == |s|
    ensures forall i :: 0 <= i < |s| ==> r[i] == (if s[i] == from then to else s[i])
  {
    if s == [] then [] else [if s[0] == from then to else s[0]] + ReplaceAll(s[1..], from, to)
  }

  /** Number of occurrences of `c` in `s`. */
  function Occurrences(s: Label, c: char): nat {
    if s == [] then 0 else (if s[0] == c then 1 else 0) + Occurrences(s[1..], c)
  }

  /** Literal deletion of every occurrence of a character (`str.replace(c, "")`). */
  function DeleteAll(s: Label, c: char): (r: Label)
    ensures c !in r
    ensures forall x :: x !in s ==> x !in r
    ensures |r| == |s| - Occurrences(s, c)
  {
    if s == [] then [] else (if s[0] == c then [] else [s[0]]) + DeleteAll(s[1..], c)
  }

  /** The four replace-all passes that follow the strip, in their order. */
  function Passes(s: Label): (r: Label)
    ensures ' ' !in r && '(' !in r && ')' !in r && '-' !in r
  {
    var spaced := ReplaceAll(s, ' ', '_');
    var kept := DeleteAll(DeleteAll(spaced, '('), ')');
    var r := ReplaceAll(kept, '-', '_');
    assert forall i :: 0 <= i < |spaced| ==> spaced[i] != ' ';
    assert ' ' !in kept && '(' !in kept && ')' !in kept;
    assert forall i :: 0 <= i < |r| ==> r[i] != ' ' && r[i] != '(' && r[i] != ')' && r[i] != '-';
    r
  }

  /** The normalisation chain applied to one header label: no normalised
      label contains a space, a parenthesis or a hyphen. */
  function NormaliseLabel(name: Label): (r: Label)
    ensures ' ' !in r && '(' !in r && ')' !in r && '-' !in r
  {
    Passes(Strip(name))
  }

  /** Replacing one character by a different one leaves the count of every
      other character unchanged. */
  lemma {:induction false} ReplaceAllKeepsOthers(s: Label, from: char, to: char, c: char)
    requires c != from && c != to
    ensures Occurrences(ReplaceAll(s, from, to), c) == Occurrences(s, c)
  {
    if s != [] {
      ReplaceAllKeepsOthers(s[1..], from, to, c);
    }
  }

  /** Deleting one character leaves the count of every other character unchanged. */
  lemma {:induction false} DeleteAllKeepsOthers(s: Label, d: char, c: char)
    requires c != d
    ensures Occurrences(DeleteAll(s, d), c) == Occurrences(s, c)
  {
    if s != [] {
      DeleteAllKeepsOthers(s[1..], d, c);
      assert DeleteAll(s, d) == (if s[0] == d then [] else [s[0]]) + DeleteAll(s[1..], d);
      OccurrencesAppend(if s[0] == d then [] else [s[0]], DeleteAll(s[1..], d), c);
    }
  }

  lemma {:induction false} OccurrencesAppend(a: Label, b: Label, c: char)
    ensures Occurrences(a + b, c) == Occurrences(a, c) + Occurrences(b, c)
  {
    if a == [] {
      assert a + b == b;
    } else {
      assert (a + b)[1..] == a[1..] + b;
      OccurrencesAppend(a[1..], b, c);
    }
  }

  /** The normalised label is as long as the stripped label less its
      parentheses, so never longer than the raw label. */
  lemma NormaliseLength(name: Label)
    ensures |NormaliseLabel(name)|
         == |Strip(name)| - Occurrences(Strip(name), '(') - Occurrences(Strip(name), ')')
    ensures |NormaliseLabel(name)| <= |name|
  {
    var stripped := Strip(name);
    var spaced := ReplaceAll(stripped, ' ', '_');
    ReplaceAllKeepsOthers(stripped, ' ', '_', '(');
    ReplaceAllKeepsOthers(stripped, ' ', '_', ')');
    DeleteAllKeepsOthers(spaced, '(', ')');
  }

  /** The header: every label is normalised, position by position. */
  function NormaliseColumns(labels: seq<Label>): (r: seq<Label>)
    ensures |r| == |labels|
    ensures forall i :: 0 <= i < |labels| ==> r[i] == NormaliseLabel(labels[i])
  {
    if labels == [] then [] else [NormaliseLabel(labels[0])] + NormaliseColumns(labels[1..])
  }

  // ---------------------------------------------------------------------------
  // A one-pass reference definition of the chain.

  /** What one character of the stripped label becomes. */
  function CharImage(c: char): (r: Label)
    ensures |r| <= 1
  {
    if c == '(' || c == ')' then []
    else if c == ' ' || c == '-' then ['_']
    else [c]
  }

  /** The stripped label, each character replaced by its image, in order. */
  function Translate(s: Label): (r: Label)
  {
    if s == [] then [] else CharImage(s[0]) + Translate(s[1..])
  }

  lemma ReplaceAllAppend(a: Label, b: Label, from: char, to: char)
    ensures ReplaceAll(a + b, from, to) == ReplaceAll(a, from, to) + ReplaceAll(b, from, to)
  {
  }

  /** Deletion works piece by piece: together with DeleteAll's contract on a
      single character, this fixes the result as the characters other than
      `c`, in their original order. */
  lemma {:induction false} DeleteAllAppend(a: Label, b: Label, c: char)
    ensures DeleteAll(a + b, c) == DeleteAll(a, c) + DeleteAll(b, c)
  {
    if a == [] {
      assert a + b == b;
    } else {
      var h := if a[0] == c then [] else [a[0]];
      assert (a + b)[0] == a[0] && (a + b)[1..] == a[1..] + b;
      calc {
        DeleteAll(a + b, c);
        h + DeleteAll(a[1..] + b, c);
        { DeleteAllAppend(a[1..], b, c); }
        h + (DeleteAll(a[1..], c) + DeleteAll(b, c));
        (h + DeleteAll(a[1..], c)) + DeleteAll(b, c);
      }
    }
  }

  lemma {:induction false} PassesAppend(a: Label, b: Label)
    ensures Passes(a + b) == Passes(a) + Passes(b)
  {
    var sa, sb := ReplaceAll(a, ' ', '_'), ReplaceAll(b, ' ', '_');
    ReplaceAllAppend(a, b, ' ', '_');
    var oa, ob := DeleteAll(sa, '('), DeleteAll(sb, '(');
    DeleteAllAppend(sa, sb, '(');
    var ca, cb := DeleteAll(oa, ')'), DeleteAll(ob, ')');
    DeleteAllAppend(oa, ob, ')');
    ReplaceAllAppend(ca, cb, '-', '_');
  }

  lemma PassesChar(c: char)
    ensures Passes([c]) == CharImage(c)
  {
  }

  /** The chain of four passes equals the one-pass reference. */
  lemma {:induction false} PassesIsTranslate(s: Label)
    ensures Passes(s) == Translate(s)
  {
    if s != [] {
      assert s == [s[0]] + s[1..];
      PassesAppend([s[0]], s[1..]);
      PassesChar(s[0]);
      PassesIsTranslate(s[1..]);
    }
  }

  /** Each normalised label is the stripped label with spaces and hyphens
      replaced by '_' one for one, parentheses deleted, and every other
      character kept in order. */
  lemma NormaliseIsTranslate(name: Label)
    ensures NormaliseLabel(name) == Translate(Strip(name))
  {
    PassesIsTranslate(Strip(name));
  }

  /** Translate on a three-character label, spelled out. */
  lemma Translate3(x: char, y: char, z: char)
    ensures Translate([x, y, z]) == CharImage(x) + CharImage(y) + CharImage(z)
  {
    assert [x, y, z][1..] == [y, z] && [y, z][1..] == [z] && [z][1..] == [];
    assert Translate([z]) == CharImage(z) + Translate([]) == CharImage(z);
    assert Translate([y, z]) == CharImage(y) + CharImage(z);
    assert Translate([x, y, z]) == CharImage(x) + (CharImage(y) + CharImage(z));
  }

  /** Every character of a translation is '_' or a character of the input that
      is none of space, parenthesis or hyphen. */
  lemma {:induction false} TranslateChars(s: Label, x: char)
    requires x in Translate(s)
    ensures x == '_' || (x in s && x != ' ' && x != '(' && x != ')' && x != '-')
  {
    if s != [] {
      if x in CharImage(s[0]) {
      } else {
        TranslateChars(s[1..], x);
      }
    }
  }

  /** A label with no whitespace, parenthesis or hyphen translates to itself. */
  lemma {:induction false} TranslateIdentity(s: Label)
    requires forall i :: 0 <= i < |s| ==> s[i] != ' ' && s[i] != '(' && s[i] != ')' && s[i] != '-'
    ensures Translate(s) == s
  {
    if s != [] {
      TranslateIdentity(s[1..]);
    }
  }

  /** Labels with no whitespace, parentheses or hyphens pass through unchanged. */
  lemma PassThrough(name: Label)
    requires NoWhitespace(name)
    requires '(' !in name && ')' !in name && '-' !in name
    ensures NormaliseLabel(name) == name
  {
    assert StripLeading(name) == name;
    assert StripTrailing(name) == name;
    NormaliseIsTranslate(name);
    TranslateIdentity(name);
  }

  /** The label "Age", read later by the dashboard's row filter, is left as
      it is. */
  lemma AgeUnchanged()
    ensures NormaliseLabel("Age") == "Age"
  {
    assert NoWhitespace("Age");
    assert '(' !in "Age" && ')' !in "Age" && '-' !in "Age";
    PassThrough("Age");
  }

  /** Stripping runs first, so whitespace at either end vanishes instead of
      turning into underscores. */
  lemma {:induction false} StripLeadingPrefix(w: Label, s: Label)
    requires AllWhitespace(w)
    ensures StripLeading(w + s) == StripLeading(s)
  {
    if w != [] {
      assert (w + s)[1..] == w[1..] + s;
      StripLeadingPrefix(w[1..], s);
    } else {
      assert w + s == s;
    }
  }

  lemma {:induction false} StripTrailingSuffix(s: Label, w: Label)
    requires AllWhitespace(w)
    ensures StripTrailing(s + w) == StripTrailing(s)
  {
    if w != [] {
      assert (s + w)[..|s + w| - 1] == s + w[..|w| - 1];
      StripTrailingSuffix(s, w[..|w| - 1]);
    } else {
      assert s + w == s;
    }
  }

  lemma {:induction false} StripLeadingAppend(s: Label, w: Label)
    requires AllWhitespace(w)
    ensures StripLeading(s) == [] ==> StripLeading(s + w) == []
    ensures StripLeading(s) != [] ==> StripLeading(s + w) == StripLeading(s) + w
  {
    if s == [] {
      assert s + w == w;
      StripLeadingPrefix(w, []);
      assert w + [] == w;
    } else {
      assert (s + w)[0] == s[0] && (s + w)[1..] == s[1..] + w;
      StripLeadingAppend(s[1..], w);
    }
  }

  lemma StripEnds(w1: Label, s: Label, w2: Label)
    requires AllWhitespace(w1) && AllWhitespace(w2)
    ensures Strip(w1 + s + w2) == Strip(s)
  {
    assert w1 + s + w2 == w1 + (s + w2);
    StripLeadingPrefix(w1, s + w2);
    StripLeadingAppend(s, w2);
    if StripLeading(s) != [] {
      StripTrailingSuffix(StripLeading(s), w2);
    }
  }

  /** Whitespace surrounding a label never reaches the normalised label. */
  lemma SurroundingWhitespaceIgnored(w1: Label, name: Label, w2: Label)
    requires AllWhitespace(w1) && AllWhitespace(w2)
    ensures NormaliseLabel(w1 + name + w2) == NormaliseLabel(name)
  {
    StripEnds(w1, name, w2);
  }

  /** A label that neither starts nor ends with whitespace is not changed by
      the strip. */
  lemma StripInnerOnly(s: Label)
    requires s != [] && !IsWhitespace(s[0]) && !IsWhitespace(s[|s| - 1])
    ensures Strip(s) == s
  {
  }

  /** A character that every step of the chain keeps as it is. */
  predicate Ordinary(c: char) {
    !IsWhitespace(c) && c != '(' && c != ')' && c != '-'
  }

  /** The label "a b" of two ordinary characters becomes "a_b". */
  lemma InnerSpace(a: char, b: char)
    requires Ordinary(a) && Ordinary(b)
    ensures NormaliseLabel([a, ' ', b]) == [a, '_', b]
  {
    StripInnerOnly([a, ' ', b]);
    NormaliseIsTranslate([a, ' ', b]);
    Translate3(a, ' ', b);
  }

  /** " a b " becomes "a_b", not "_a_b_": the outer spaces are stripped
      before the space replacement runs. */
  lemma SpacesAtEndsDropped(a: char, b: char)
    requires Ordinary(a) && Ordinary(b)
    ensures NormaliseLabel([' ', a, ' ', b, ' ']) == [a, '_', b]
  {
    assert [' '] + [a, ' ', b] + [' '] == [' ', a, ' ', b, ' '];
    SurroundingWhitespaceIgnored([' '], [a, ' ', b], [' ']);
    InnerSpace(a, b);
  }

  /** Every character of a normalised label is '_' or a character of the raw
      label; so when space is the only whitespace the raw label holds, the
      normalised label holds none. */
  lemma NormalisedWithoutWhitespace(name: Label)
    requires forall i :: 0 <= i < |name| && IsWhitespace(name[i]) ==> name[i] == ' '
    ensures NoWhitespace(NormaliseLabel(name))
  {
    var r := NormaliseLabel(name);
    NormaliseIsTranslate(name);
    forall i | 0 <= i < |r| ensures !IsWhitespace(r[i]) {
      TranslateChars(Strip(name), r[i]);
      if r[i] != '_' {
        StripKeepsChars(name, r[i]);
      }
    }
  }

  /** When space is the only whitespace character of a label, normalising
      twice gives the same label as normalising once. */
  lemma Idempotent(name: Label)
    requires forall i :: 0 <= i < |name| && IsWhitespace(name[i]) ==> name[i] == ' '
    ensures NormaliseLabel(NormaliseLabel(name)) == NormaliseLabel(name)
  {
    NormalisedWithoutWhitespace(name);
    PassThrough(NormaliseLabel(name));
  }

  /** Deleting the parentheses of "(\tx)" leaves "\tx": the tab was inner
      when the strip ran. */
  lemma TabExposed(x: char)
    requires Ordinary(x)
    ensures NormaliseLabel(['(', '\t', x, ')']) == ['\t', x]
  {
    var s := ['(', '\t', x, ')'];
    assert s[1..] == ['\t', x, ')'];
    assert CharImage('\t') + CharImage(x) + CharImage(')') == ['\t', x];
    StripInnerOnly(s);
    NormaliseIsTranslate(s);
    Translate3('\t', x, ')');
  }

  /** A leading tab is stripped: "\tx" becomes "x". */
  lemma LeadingTabStripped(x: char)
    requires Ordinary(x)
    ensures NormaliseLabel(['\t', x]) == [x]
  {
    assert ['\t'] + [x] + [] == ['\t', x];
    SurroundingWhitespaceIgnored(['\t'], [x], []);
    PassThrough([x]);
  }

  /** Deleting parentheses can bring inner whitespace to the ends, so the
      chain is not idempotent in general: "(\tx)" becomes "\tx", which then
      becomes "x". */
  lemma NotIdempotentWithTab(x: char)
    requires Ordinary(x)
    ensures NormaliseLabel(NormaliseLabel(['(', '\t', x, ')'])) == [x]
    ensures NormaliseLabel(NormaliseLabel(['(', '\t', x, ')'])) != NormaliseLabel(['(', '\t', x, ')'])
  {
    TabExposed(x);
    LeadingTabStripped(x);
  }

  /** Whitespace other than the space inside a label survives normalisation,
      so a normalised label can still hold whitespace. */
  lemma InnerTabKept(a: char, b: char)
    requires Ordinary(a) && Ordinary(b)
    ensures NormaliseLabel([a, '\t', b]) == [a, '\t', b]
  {
    StripInnerOnly([a, '\t', b]);
    NormaliseIsTranslate([a, '\t', b]);
    TranslateIdentity([a, '\t', b]);
  }

  /** The label "a-b" of two ordinary characters becomes "a_b". */
  lemma HyphenCollides(a: char, b: char)
    requires Ordinary(a) && Ordinary(b)
    ensures NormaliseLabel([a, '-', b]) == [a, '_', b]
  {
    assert CharImage(a) + CharImage('-') + CharImage(b) == [a, '_', b];
    StripInnerOnly([a, '-', b]);
    NormaliseIsTranslate([a, '-', b]);
    Translate3(a, '-', b);
  }

  /** "a_b" is already normalised. */
  lemma UnderscoreKept(a: char, b: char)
    requires Ordinary(a) && Ordinary(b)
    ensures NormaliseLabel([a, '_', b]) == [a, '_', b]
  {
    assert !IsWhitespace('_');
    PassThrough([a, '_', b]);
  }

  /** " a_b" loses its leading space and becomes "a_b". */
  lemma LeadingSpaceCollides(a: char, b: char)
    requires Ordinary(a) && Ordinary(b)
    ensures NormaliseLabel([' ', a, '_', b]) == [a, '_', b]
  {
    assert [' '] + [a, '_', b] + [] == [' ', a, '_', b];
    SurroundingWhitespaceIgnored([' '], [a, '_', b], []);
    UnderscoreKept(a, b);
  }

  /** Normalisation is not injective: "a b", "a-b", "a_b" and " a_b" all
      become "a_b", and nothing checks that the normalised header stays
      unique. */
  lemma Collisions(a: char, b: char)
    requires Ordinary(a) && Ordinary(b)
    ensures NormaliseLabel([a, ' ', b]) == [a, '_', b]
    ensures NormaliseLabel([a, '-', b]) == [a, '_', b]
    ensures NormaliseLabel([a, '_', b]) == [a, '_', b]
    ensures NormaliseLabel([' ', a, '_', b]) == [a, '_', b]
  {
    InnerSpace(a, b);
    HyphenCollides(a, b);
    UnderscoreKept(a, b);
    LeadingSpaceCollides(a, b);
  }

  /** Two distinct header labels can give the same column name. */
  lemma DuplicateColumns(a: char, b: char)
    requires Ordinary(a) && Ordinary(b)
    ensures [a, ' ', b] != [a, '-', b]
    ensures NormaliseColumns([[a, ' ', b], [a, '-', b]]) == [[a, '_', b], [a, '_', b]]
  {
    var header := [[a, ' ', b], [a, '-', b]];
    assert header[0][1] != header[1][1];
    InnerSpace(a, b);
    HyphenCollides(a, b);
    var r := NormaliseColumns(header);
    assert r[0] == [a, '_', b] && r[1] == [a, '_', b];
  }
}
