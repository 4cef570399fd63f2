/**
  `formatMessageContent`: a reply is cut into sections at blank lines and
  every section becomes exactly one typed block, chosen by a fixed
  precedence chain: Arabic text, Quranic verse, hadith, translation,
  bullet list, quote, and plain paragraph when nothing else applies.  A
  block carries the layout direction it is rendered with.
*/
module Formatter {
  import opened JsText
  import opened BlankLineSplit
  import Languages

  /** The rendered blocks.  A reference is present only when it is rendered (it is non-empty). */
  datatype Segment =
    | Paragraph(text: string, isRTL: bool)
    | Quote(text: string, isRTL: bool)
    | Verse(text: string, reference: Option<string>, isRTL: bool)
    | Hadith(text: string, reference: Option<string>, isRTL: bool)
    | Translation(text: string, isRTL: bool)
    | ArabicBlock(text: string, isRTL: bool)
    | BulletList(items: seq<string>, isRTL: bool)

  const ArabicOpen: string := "[arabic-text]"
  const ArabicClose: string := "[/arabic-text]"
  const VerseOpen: string := "[verse-section]"
  const VerseClose: string := "[/verse-section]"
  const HadithOpen: string := "[hadith]"
  const HadithClose: string := "[/hadith]"
  const TranslationOpen: string := "[translation]"
  const TranslationClose: string := "[/translation]"

  /** A marker opens with '[' and has no other '['. */
  predicate IsMarker(m: string) {
    |m| >= 2 && m[0] == '[' && '[' !in m[1..]
  }

  /** `language ∈ ['arabic', 'urdu']`: the direction of every block but the Arabic one. */
  predicate IsRtlLanguage(language: string) {
    language == "arabic" || language == "urdu"
  }

  /** `s.replace(/\[x\]|\[\/x\]/g, '')`: every occurrence of either marker removed, left to right. */
  function StripMarkers(s: string, open: string, close: string): (r: string)
    requires open != [] && close != []
    ensures |r| <= |s|
    decreases |s|
  {
    if s == [] then []
    else if open <= s then StripMarkers(s[|open|..], open, close)
    else if close <= s then StripMarkers(s[|close|..], open, close)
    else [s[0]] + StripMarkers(s[1..], open, close)
  }

  /** Text without '[' holds no marker and is left as it is. */
  lemma {:induction false} StripWithoutBracket(s: string, open: string, close: string)
    requires IsMarker(open) && IsMarker(close) && '[' !in s
    ensures StripMarkers(s, open, close) == s
    decreases |s|
  {
    if s != [] {
      assert !(open <= s) && !(close <= s) by { assert s[0] != '['; }
      StripWithoutBracket(s[1..], open, close);
    }
  }

  /** A marker that prefixes `a + b` ends inside `a` when `b` starts with '['. */
  lemma MarkerEndsBeforeBracket(m: string, a: string, b: string)
    requires IsMarker(m) && a != [] && (b == [] || b[0] == '[') && m <= a + b
    ensures |m| <= |a|
  {
    var k := if |a| < |m| then |a| else 1;
    assert m[k] == m[1..][k - 1];
    assert m[k] == (a + b)[k];
  }

  /** No marker straddles a point where a '[' starts, so stripping splits there. */
  lemma {:induction false} StripAppend(a: string, b: string, open: string, close: string)
    requires IsMarker(open) && IsMarker(close)
    requires b == [] || b[0] == '['
    ensures StripMarkers(a + b, open, close) == StripMarkers(a, open, close) + StripMarkers(b, open, close)
    decreases |a|
  {
    if a == [] {
      assert a + b == b;
    } else {
      var s := a + b;
      PrefixOfConcat(open, a, b);
      PrefixOfConcat(close, a, b);
      if open <= s {
        MarkerEndsBeforeBracket(open, a, b);
        DropOfConcat(a, b, |open|);
        StripAppend(a[|open|..], b, open, close);
      } else if close <= s {
        MarkerEndsBeforeBracket(close, a, b);
        DropOfConcat(a, b, |close|);
        StripAppend(a[|close|..], b, open, close);
      } else {
        DropOfConcat(a, b, 1);
        StripAppend(a[1..], b, open, close);
      }
    }
  }

  /** A prefix that fits in `a` prefixes `a + b` exactly when it prefixes `a`. */
  lemma PrefixOfConcat(m: string, a: string, b: string)
    ensures |m| <= |a| ==> (m <= a + b <==> m <= a)
    ensures m <= a ==> m <= a + b
  {
    if |m| <= |a| {
      assert (a + b)[..|m|] == a[..|m|];
    }
  }

  lemma DropOfConcat(a: string, b: string, n: nat)
    requires n <= |a|
    ensures (a + b)[n..] == a[n..] + b
  {
  }

  /** A block wrapped in its own pair of markers loses exactly the markers. */
  lemma StripWrapped(open: string, t: string, close: string)
    requires IsMarker(open) && IsMarker(close) && !(open <= close) && '[' !in t
    ensures StripMarkers(open + t + close, open, close) == t
  {
    StripAppend(open + t, close, open, close);
    assert open <= open + t && (open + t)[|open|..] == t;
    StripWithoutBracket(t, open, close);
    assert StripMarkers(close, open, close) == [] by {
      assert close <= close && close[|close|..] == [];
    }
  }

  /**
    `content.match(/\(([\s\S]*?)\)$/)`: when the content ends in ')' and has
    a '(', the match starts at the FIRST '(' and runs to the end; the
    result is the text before the match and the capture between the
    parentheses.
  */
  function VerseReference(content: string): (r: Option<(string, string)>)
    ensures r.Some? ==> content == r.value.0 + "(" + r.value.1 + ")" && '(' !in r.value.0
    ensures r.None? ==> content == [] || content[|content| - 1] != ')' || '(' !in content
  {
    if content != [] && content[|content| - 1] == ')' then
      match IndexOf(content, '(')
      case None => None
      case Some(i) =>
        var pre, capture := content[..i], content[i + 1..|content| - 1];
        assert content == pre + "(" + capture + ")";
        Some((pre, capture))
    else None
  }

  /** The converse: a trailing parenthesised part after text without '(' is found whole. */
  lemma VerseReferenceFinds(pre: string, capture: string)
    requires '(' !in pre
    ensures VerseReference(pre + "(" + capture + ")") == Some((pre, capture))
  {
    var content := pre + "(" + capture + ")";
    assert content[|pre|] == '(' && content[..|pre|] == pre;
    assert IndexOf(content, '(') == Some(|pre|);
  }

  /** The match starts at the first '(' even when the text closes several: "a (b) c (d)" gives "b) c (d". */
  lemma VerseReferenceFromFirstParenthesis()
    ensures VerseReference("a (b) c (d)") == Some(("a ", "b) c (d"))
  {
    VerseReferenceFinds("a ", "b) c (d");
    assert "a " + "(" + "b) c (d" + ")" == "a (b) c (d)";
  }

  /**
    A verse block: the matched reference is removed and the rest trimmed;
    with no match the body is the content untrimmed.  An empty capture, as
    in "()", is removed but renders no reference.
  */
  function VerseSegment(content: string, rtl: bool): (r: Segment)
    ensures r.Verse? && r.isRTL == rtl
    ensures r.reference.Some? ==> r.reference.value != ""
  {
    match VerseReference(content)
    case Some((pre, capture)) => Verse(Trim(pre), if capture == "" then None else Some(capture), rtl)
    case None => Verse(content, None, rtl)
  }

  /**
    Content ending in a parenthesised part after text without '(' gives
    the trimmed text and that part, whatever else the text holds.
  */
  lemma VerseSegmentWithReference(pre: string, capture: string, rtl: bool)
    requires '(' !in pre
    ensures VerseSegment(pre + "(" + capture + ")", rtl)
      == Verse(Trim(pre), if capture == "" then None else Some(capture), rtl)
  {
    VerseReferenceFinds(pre, capture);
  }

  /**
    A hadith block: the first line, untrimmed, is the quoted text; the other
    lines rejoined with '\n' and trimmed are the reference, rendered only
    when non-empty.
  */
  function HadithSegment(content: string, rtl: bool): (r: Segment)
    ensures r.Hadith? && r.isRTL == rtl
    ensures '\n' !in r.text
    ensures r.reference.Some? ==> r.reference.value != ""
  {
    var lines := SplitOn(content, '\n');
    var reference := Trim(Join(lines[1..], "\n"));
    Hadith(lines[0], if reference == "" then None else Some(reference), rtl)
  }

  /** Content without a line break is all hadith text, with no reference. */
  lemma HadithWithoutLineBreak(content: string, rtl: bool)
    requires '\n' !in content
    ensures HadithSegment(content, rtl).text == content
    ensures HadithSegment(content, rtl).reference == None
  {
    assert SplitOn(content, '\n') == [content];
    assert SplitOn(content, '\n')[1..] == [];
  }

  /** The hadith text is everything before the first line break; the reference is what follows it, trimmed. */
  lemma HadithSplitsAtFirstLineBreak(content: string, rtl: bool, i: nat)
    requires IndexOf(content, '\n') == Some(i)
    ensures HadithSegment(content, rtl).text == content[..i]
    ensures HadithSegment(content, rtl).reference ==
      if Trim(content[i + 1..]) == "" then None else Some(Trim(content[i + 1..]))
  {
    SplitOnRest(content, '\n', i);
  }

  predicate IsBulletGlyph(c: char) {
    c == '•' || c == '-'
  }

  /** A rendered item: one leading glyph ('•' or '-') and the whitespace after it give way to "• "; other lines just gain the "• ". */
  function BulletItem(line: string): (r: string)
    ensures |r| >= 2 && r[..2] == "• "
    ensures line == [] || !IsBulletGlyph(line[0]) ==> r == "• " + line
  {
    "• " + (if line != [] && IsBulletGlyph(line[0]) then TrimStart(line[1..]) else line)
  }

  /** A line written as a glyph, spaces and text renders as "• " and that text: no doubled glyph. */
  lemma BulletItemNormalises(glyph: char, spaces: string, text: string)
    requires IsBulletGlyph(glyph) && AllSpace(spaces)
    requires text == [] || !IsSpace(text[0])
    ensures BulletItem([glyph] + spaces + text) == "• " + text
  {
    assert ([glyph] + spaces + text)[1..] == spaces + text;
    TrimStartOfSpaces(spaces, text);
  }

  /**
    `lines.filter(line => line.trim())`: a line is kept when its trim is
    non-empty, which by the contract of `Trim` is when it is not all
    whitespace.
  */
  function NonBlankLines(lines: seq<string>): (r: seq<string>)
    ensures |r| <= |lines|
  {
    if lines == [] then []
    else if !AllSpace(lines[0]) then [lines[0]] + NonBlankLines(lines[1..])
    else NonBlankLines(lines[1..])
  }

  /** The filter keeps exactly the lines that are not all whitespace. */
  lemma {:induction false} NonBlankLinesKeeps(lines: seq<string>)
    ensures forall x :: x in NonBlankLines(lines) <==> x in lines && !AllSpace(x)
  {
    if lines != [] {
      NonBlankLinesKeeps(lines[1..]);
      assert lines == [lines[0]] + lines[1..];
    }
  }

  /** The filter works line by line: filtering a concatenation filters each part, in order. */
  lemma {:induction false} NonBlankLinesAppend(a: seq<string>, b: seq<string>)
    ensures NonBlankLines(a + b) == NonBlankLines(a) + NonBlankLines(b)
  {
    if a == [] {
      assert a + b == b;
    } else {
      NonBlankLinesAppend(a[1..], b);
      NonBlankLinesStep(a, b);
      var h := NonBlankLines([a[0]]);
      assert NonBlankLines(a + b) == h + (NonBlankLines(a[1..]) + NonBlankLines(b));
      assert NonBlankLines(a) == h + NonBlankLines(a[1..]);
    }
  }

  /** The first line of a non-empty list is filtered on its own. */
  lemma NonBlankLinesStep(a: seq<string>, b: seq<string>)
    requires a != []
    ensures NonBlankLines(a + b) == NonBlankLines([a[0]]) + NonBlankLines(a[1..] + b)
    ensures NonBlankLines(a) == NonBlankLines([a[0]]) + NonBlankLines(a[1..])
  {
    var c := a + b;
    assert c[0] == a[0] && c[1..] == a[1..] + b;
    assert [a[0]][1..] == [];
  }

  /** One line is dropped exactly when it is all whitespace, and kept as it is otherwise. */
  lemma NonBlankLinesOne(x: string)
    ensures NonBlankLines([x]) == if AllSpace(x) then [] else [x]
  {
    assert [x][1..] == [];
  }

  /** `items.map(BulletItem)`. */
  function BulletItems(lines: seq<string>): (r: seq<string>)
    ensures |r| == |lines|
    ensures forall k :: 0 <= k < |lines| ==> r[k] == BulletItem(lines[k])
  {
    if lines == [] then [] else [BulletItem(lines[0])] + BulletItems(lines[1..])
  }

  /** The items of a bullet section: one per non-blank line, in order. */
  function BulletListItems(section: string): seq<string> {
    BulletItems(NonBlankLines(SplitOn(section, '\n')))
  }

  predicate StartsWithBullet(section: string) {
    section != [] && IsBulletGlyph(section[0])
  }

  predicate StartsWithQuote(section: string) {
    section != [] && section[0] == '>'
  }

  /** The precedence chain: the kind of the first test, in source order, that the section passes. */
  function Chain(section: string): Kind {
    if Contains(section, ArabicOpen) then ArabicKind
    else if Contains(section, VerseOpen) then VerseKind
    else if Contains(section, HadithOpen) then HadithKind
    else if Contains(section, TranslationOpen) then TranslationKind
    else if StartsWithBullet(section) then BulletKind
    else if StartsWithQuote(section) then QuoteKind
    else ParagraphKind
  }

  /** One section as one block: the precedence chain picks the kind, and the block of that kind is built. */
  function FormatSection(section: string, rtl: bool): (r: Segment)
    ensures r.ArabicBlock? ==> r.isRTL
    ensures !r.ArabicBlock? ==> r.isRTL == rtl
  {
    Build(Chain(section), section, rtl)
  }

  /** The block of kind `k` for a section: the body of the branch of the chain that chose `k`. */
  function Build(k: Kind, section: string, rtl: bool): (r: Segment)
    ensures KindOf(r) == k
    ensures r.isRTL == (k == ArabicKind || rtl)
  {
    match k
    case ArabicKind => ArabicBlock(Unwrapped(section, ArabicOpen, ArabicClose), true)
    case VerseKind => VerseSegment(StripMarkers(section, VerseOpen, VerseClose), rtl)
    case HadithKind => HadithSegment(StripMarkers(section, HadithOpen, HadithClose), rtl)
    case TranslationKind => Translation(Unwrapped(section, TranslationOpen, TranslationClose), rtl)
    case BulletKind => BulletList(BulletListItems(section), rtl)
    case QuoteKind => Quote(QuoteBody(section), rtl)
    case ParagraphKind => Paragraph(section, rtl)
  }

  /** The text of an Arabic or translation block: the markers removed, then trimmed. */
  function Unwrapped(section: string, open: string, close: string): string
    requires open != [] && close != []
  {
    Trim(StripMarkers(section, open, close))
  }

  /** The quote text: the leading `>` and the whitespace after it removed (the section starts with `>`). */
  function QuoteBody(section: string): string {
    if section == [] then [] else TrimStart(section[1..])
  }

  /** `sections.map(...)`: one block per section, in order. */
  function FormatSections(sections: seq<string>, rtl: bool): (r: seq<Segment>)
    ensures |r| == |sections|
    ensures forall k :: 0 <= k < |sections| ==> r[k] == FormatSection(sections[k], rtl)
  {
    if sections == [] then [] else [FormatSection(sections[0], rtl)] + FormatSections(sections[1..], rtl)
  }

  /** `formatMessageContent(text, language)`. */
  function FormatMessageContent(text: string, language: string): seq<Segment> {
    FormatSections(Sections(text), IsRtlLanguage(language))
  }

  // ---------------------------------------------------------------------
  // Precedence

  datatype Kind = ArabicKind | VerseKind | HadithKind | TranslationKind | BulletKind | QuoteKind | ParagraphKind

  function KindOf(s: Segment): Kind {
    match s
    case Paragraph(_, _) => ParagraphKind
    case Quote(_, _) => QuoteKind
    case Verse(_, _, _) => VerseKind
    case Hadith(_, _, _) => HadithKind
    case Translation(_, _) => TranslationKind
    case ArabicBlock(_, _) => ArabicKind
    case BulletList(_, _) => BulletKind
  }

  /** The rules in the order they are tried; a plain paragraph when none applies. */
  const Precedence: seq<Kind> := [ArabicKind, VerseKind, HadithKind, TranslationKind, BulletKind, QuoteKind]

  /** When a rule applies: the marker rules test only for the opening marker. */
  predicate Applies(k: Kind, section: string) {
    match k
    case ArabicKind => Contains(section, ArabicOpen)
    case VerseKind => Contains(section, VerseOpen)
    case HadithKind => Contains(section, HadithOpen)
    case TranslationKind => Contains(section, TranslationOpen)
    case BulletKind => StartsWithBullet(section)
    case QuoteKind => StartsWithQuote(section)
    case ParagraphKind => true
  }

  /** The kind of the first rule from position `i` of the precedence order on that applies. */
  function FirstApplying(section: string, i: nat): Kind
    requires i <= |Precedence|
    decreases |Precedence| - i
  {
    if i == |Precedence| then ParagraphKind
    else if Applies(Precedence[i], section) then Precedence[i]
    else FirstApplying(section, i + 1)
  }

  lemma FirstApplyingIsChain(section: string)
    ensures FirstApplying(section, 0) == Chain(section)
  {
    assert Precedence[0] == ArabicKind && Precedence[1] == VerseKind && Precedence[2] == HadithKind;
    assert Precedence[3] == TranslationKind && Precedence[4] == BulletKind && Precedence[5] == QuoteKind;
    assert FirstApplying(section, 6) == ParagraphKind;
    assert FirstApplying(section, 5) == if StartsWithQuote(section) then QuoteKind else ParagraphKind;
    assert FirstApplying(section, 4) == if StartsWithBullet(section) then BulletKind else FirstApplying(section, 5);
    assert FirstApplying(section, 3) == if Contains(section, TranslationOpen) then TranslationKind else FirstApplying(section, 4);
    assert FirstApplying(section, 2) == if Contains(section, HadithOpen) then HadithKind else FirstApplying(section, 3);
    assert FirstApplying(section, 1) == if Contains(section, VerseOpen) then VerseKind else FirstApplying(section, 2);
  }

  /** A section whose chain gives `k` is built as a block of kind `k`. */
  lemma FormatAsKind(section: string, rtl: bool, k: Kind)
    requires Chain(section) == k
    ensures FormatSection(section, rtl) == Build(k, section, rtl)
  {
  }

  lemma FormatSectionIsChain(section: string, rtl: bool)
    ensures KindOf(FormatSection(section, rtl)) == Chain(section)
  {
  }

  /** Every section becomes the kind of the first rule in the precedence order that applies to it. */
  lemma KindFollowsPrecedence(section: string, rtl: bool)
    ensures KindOf(FormatSection(section, rtl)) == FirstApplying(section, 0)
  {
    FirstApplyingIsChain(section);
    FormatSectionIsChain(section, rtl);
  }

  /** The position of a kind in the precedence order; a plain paragraph comes after every rule. */
  function Rank(k: Kind): nat {
    match k
    case ArabicKind => 0
    case VerseKind => 1
    case HadithKind => 2
    case TranslationKind => 3
    case BulletKind => 4
    case QuoteKind => 5
    case ParagraphKind => 6
  }

  lemma PrecedenceRanks()
    ensures forall i :: 0 <= i < |Precedence| ==> Rank(Precedence[i]) == i
  {
  }

  /** A rule that applies wins over every rule after it in the precedence order. */
  lemma EarlierRuleWins(section: string, rtl: bool, i: nat, j: nat)
    requires i < j < |Precedence| && Applies(Precedence[i], section)
    ensures KindOf(FormatSection(section, rtl)) != Precedence[j]
  {
    KindFollowsPrecedence(section, rtl);
    FirstApplyingIsEarliest(section, 0, i);
    PrecedenceRanks();
  }

  /** The search from `from` stops at or before any rule that applies. */
  lemma {:induction false} FirstApplyingIsEarliest(section: string, from: nat, i: nat)
    requires from <= i < |Precedence| && Applies(Precedence[i], section)
    ensures Rank(FirstApplying(section, from)) <= i
    decreases i - from
  {
    PrecedenceRanks();
    if !Applies(Precedence[from], section) {
      FirstApplyingIsEarliest(section, from + 1, i);
    }
  }

  /** A section no rule applies to is a paragraph of its raw text, whitespace included. */
  lemma UnmarkedSectionIsRawParagraph(section: string, rtl: bool)
    requires forall i :: 0 <= i < |Precedence| ==> !Applies(Precedence[i], section)
    ensures FormatSection(section, rtl) == Paragraph(section, rtl)
  {
    KindFollowsPrecedence(section, rtl);
    assert FirstApplying(section, 0) == ParagraphKind by {
      var i := 0;
      while i < |Precedence|
        invariant 0 <= i <= |Precedence|
        invariant FirstApplying(section, 0) == FirstApplying(section, i)
      {
        assert !Applies(Precedence[i], section);
        i := i + 1;
      }
    }
  }

  // ---------------------------------------------------------------------
  // The whole reply

  /** One block per section of `text.split(/\n\s*\n/)`, in the same order. */
  lemma BlocksFollowSections(text: string, language: string)
    ensures |FormatMessageContent(text, language)| == |Sections(text)|
    ensures forall k :: 0 <= k < |Sections(text)| ==>
      FormatMessageContent(text, language)[k] == FormatSection(Sections(text)[k], IsRtlLanguage(language))
  {
  }

  /** Arabic blocks are always right to left; every other block follows the reply's language. */
  lemma BlockDirections(text: string, language: string)
    ensures forall seg :: seg in FormatMessageContent(text, language) ==>
      seg.isRTL == (seg.ArabicBlock? || IsRtlLanguage(language))
  {
  }

  /** The formatter's right-to-left languages are exactly those whose table entry is laid out right to left. */
  lemma DirectionAgreesWithConfig(language: string)
    ensures IsRtlLanguage(language) <==> Languages.LanguageConfigFor(language).direction == Languages.Rtl
  {
    Languages.RightToLeftLanguages(language);
  }

  /** The empty reply is one empty paragraph. */
  lemma EmptyReply(language: string)
    ensures FormatMessageContent("", language) == [Paragraph("", IsRtlLanguage(language))]
  {
    SectionsOfEmpty();
  }

  // ---------------------------------------------------------------------
  // The markers

  /** A section without '[' contains no marker. */
  lemma NoBracketNoMarker(s: string, m: string)
    requires m != [] && m[0] == '[' && '[' !in s
    ensures !Contains(s, m)
  {
    assert s == s + [];
    ContainsSkip(s, [], m);
  }

  /** A marker is found in a wrapped block only where it is one of the two wrapping markers. */
  lemma WrappedContains(open: string, t: string, close: string, m: string)
    requires IsMarker(open) && IsMarker(close) && '[' !in t
    requires |m| >= 2 && m[0] == '[' && m[1] != open[1] && m[1] != close[1]
    ensures !Contains(open + t + close, m)
  {
    var s := open + t + close;
    WrappedTail(open, t, close);
    ContainsSkip(open[1..] + t, close, m);
    assert close[1..] == close[1..] + [];
    ContainsSkip(close[1..], [], m);
  }

  /** Each pair of markers is well formed, and its opening marker is not a prefix of its closing one. */
  lemma ArabicMarkers()
    ensures IsMarker(ArabicOpen) && IsMarker(ArabicClose) && !(ArabicOpen <= ArabicClose)
  {
    assert ArabicOpen[1] != ArabicClose[1];
  }

  lemma VerseMarkers()
    ensures IsMarker(VerseOpen) && IsMarker(VerseClose) && !(VerseOpen <= VerseClose)
  {
    assert VerseOpen[1] != VerseClose[1];
  }

  lemma HadithMarkers()
    ensures IsMarker(HadithOpen) && IsMarker(HadithClose) && !(HadithOpen <= HadithClose)
  {
    assert HadithOpen[1] != HadithClose[1];
  }

  lemma TranslationMarkers()
    ensures IsMarker(TranslationOpen) && IsMarker(TranslationClose) && !(TranslationOpen <= TranslationClose)
  {
    assert TranslationOpen[1] != TranslationClose[1];
  }

  /** A section without '[' is classified by its first character alone. */
  lemma UnmarkedChain(section: string)
    requires '[' !in section
    ensures Chain(section) ==
      if StartsWithBullet(section) then BulletKind
      else if StartsWithQuote(section) then QuoteKind
      else ParagraphKind
  {
    NoBracketNoMarker(section, ArabicOpen);
    NoBracketNoMarker(section, VerseOpen);
    NoBracketNoMarker(section, HadithOpen);
    NoBracketNoMarker(section, TranslationOpen);
  }

  /** Text wrapped in Arabic markers is chosen as Arabic and loses exactly the markers. */
  lemma ArabicWrapped(t: string)
    requires '[' !in t
    ensures Chain(ArabicOpen + t + ArabicClose) == ArabicKind
    ensures StripMarkers(ArabicOpen + t + ArabicClose, ArabicOpen, ArabicClose) == t
  {
    ArabicMarkers();
    PrefixOfWrapped(ArabicOpen, t, ArabicClose);
    StripWrapped(ArabicOpen, t, ArabicClose);
  }

  /** Text wrapped in verse markers is chosen as a verse and loses exactly the markers. */
  lemma VerseWrapped(t: string)
    requires '[' !in t
    ensures Chain(VerseOpen + t + VerseClose) == VerseKind
    ensures StripMarkers(VerseOpen + t + VerseClose, VerseOpen, VerseClose) == t
  {
    assert ArabicOpen[1] != VerseOpen[1] && ArabicOpen[1] != VerseClose[1];
    VerseMarkers();
    WrappedContains(VerseOpen, t, VerseClose, ArabicOpen);
    PrefixOfWrapped(VerseOpen, t, VerseClose);
    StripWrapped(VerseOpen, t, VerseClose);
  }

  /** Text wrapped in hadith markers is chosen as a hadith and loses exactly the markers. */
  lemma HadithWrapped(t: string)
    requires '[' !in t
    ensures Chain(HadithOpen + t + HadithClose) == HadithKind
    ensures StripMarkers(HadithOpen + t + HadithClose, HadithOpen, HadithClose) == t
  {
    assert ArabicOpen[1] != HadithOpen[1] && ArabicOpen[1] != HadithClose[1];
    assert VerseOpen[1] != HadithOpen[1] && VerseOpen[1] != HadithClose[1];
    HadithMarkers();
    WrappedContains(HadithOpen, t, HadithClose, ArabicOpen);
    WrappedContains(HadithOpen, t, HadithClose, VerseOpen);
    PrefixOfWrapped(HadithOpen, t, HadithClose);
    StripWrapped(HadithOpen, t, HadithClose);
  }

  /** Text wrapped in translation markers is chosen as a translation and loses exactly the markers. */
  lemma TranslationWrapped(t: string)
    requires '[' !in t
    ensures Chain(TranslationOpen + t + TranslationClose) == TranslationKind
    ensures StripMarkers(TranslationOpen + t + TranslationClose, TranslationOpen, TranslationClose) == t
  {
    assert ArabicOpen[1] != TranslationOpen[1] && ArabicOpen[1] != TranslationClose[1];
    assert VerseOpen[1] != TranslationOpen[1] && VerseOpen[1] != TranslationClose[1];
    assert HadithOpen[1] != TranslationOpen[1] && HadithOpen[1] != TranslationClose[1];
    TranslationMarkers();
    WrappedContains(TranslationOpen, t, TranslationClose, ArabicOpen);
    WrappedContains(TranslationOpen, t, TranslationClose, VerseOpen);
    WrappedContains(TranslationOpen, t, TranslationClose, HadithOpen);
    PrefixOfWrapped(TranslationOpen, t, TranslationClose);
    StripWrapped(TranslationOpen, t, TranslationClose);
  }

  // ---------------------------------------------------------------------
  // One section

  /** An Arabic block is its wrapped text trimmed, right to left whatever the reply's language. */
  lemma ArabicSection(t: string, rtl: bool)
    requires '[' !in t
    ensures FormatSection(ArabicOpen + t + ArabicClose, rtl) == ArabicBlock(Trim(t), true)
  {
    var s := ArabicOpen + t + ArabicClose;
    ArabicWrapped(t);
    FormatAsKind(s, rtl, ArabicKind);
  }

  /**
    A verse block whose text ends in a parenthesised reference renders the
    trimmed text and that reference; an empty pair "()" is removed but
    renders no reference.
  */
  lemma VerseSection(body: string, ref: string, rtl: bool)
    requires '[' !in body && '[' !in ref && '(' !in body
    ensures FormatSection(VerseOpen + (body + "(" + ref + ")") + VerseClose, rtl)
      == Verse(Trim(body), if ref == "" then None else Some(ref), rtl)
  {
    var t := body + "(" + ref + ")";
    assert '[' !in t;
    VerseWrapped(t);
    VerseReferenceFinds(body, ref);
    FormatAsKind(VerseOpen + t + VerseClose, rtl, VerseKind);
  }

  /** A verse block with no trailing parenthesised reference keeps its text untrimmed. */
  lemma VerseWithoutReference(t: string, rtl: bool)
    requires '[' !in t && (t == [] || t[|t| - 1] != ')' || '(' !in t)
    ensures FormatSection(VerseOpen + t + VerseClose, rtl) == Verse(t, None, rtl)
  {
    VerseWrapped(t);
    FormatAsKind(VerseOpen + t + VerseClose, rtl, VerseKind);
  }

  /** A hadith block renders its first line as the text and the rest, trimmed, as the reference. */
  lemma HadithSection(text: string, ref: string, rtl: bool)
    requires '[' !in text && '[' !in ref && '\n' !in text
    ensures FormatSection(HadithOpen + (text + "\n" + ref) + HadithClose, rtl)
      == Hadith(text, if Trim(ref) == "" then None else Some(Trim(ref)), rtl)
  {
    var t := text + "\n" + ref;
    assert '[' !in t;
    HadithWrapped(t);
    HadithSectionOf(HadithOpen + t + HadithClose, t, rtl);
    HadithOfTwoParts(text, ref, rtl);
  }

  /** A section chosen as a hadith is the hadith block of its content. */
  lemma HadithSectionOf(s: string, t: string, rtl: bool)
    requires Chain(s) == HadithKind && StripMarkers(s, HadithOpen, HadithClose) == t
    ensures FormatSection(s, rtl) == HadithSegment(t, rtl)
  {
    FormatAsKind(s, rtl, HadithKind);
  }

  /** Hadith content made of a first line and a rest. */
  lemma HadithOfTwoParts(text: string, ref: string, rtl: bool)
    requires '\n' !in text
    ensures HadithSegment(text + "\n" + ref, rtl)
      == Hadith(text, if Trim(ref) == "" then None else Some(Trim(ref)), rtl)
  {
    var t := text + "\n" + ref;
    IndexOfConcat(text, '\n', ref);
    HadithSplitsAtFirstLineBreak(t, rtl, |text|);
    AroundSeparator(text, '\n', ref);
  }

  /** A translation block is its wrapped text trimmed. */
  lemma TranslationSection(t: string, rtl: bool)
    requires '[' !in t
    ensures FormatSection(TranslationOpen + t + TranslationClose, rtl) == Translation(Trim(t), rtl)
  {
    var s := TranslationOpen + t + TranslationClose;
    TranslationWrapped(t);
    FormatAsKind(s, rtl, TranslationKind);
  }

  /**
    Only the opening marker is tested, and only the winning kind's markers
    are stripped: a verse wrapped in Arabic markers is an Arabic block that
    still shows the verse markers.
  */
  lemma ArabicOverVerse(x: string, rtl: bool)
    requires '[' !in x
    ensures FormatSection(ArabicOpen + (VerseOpen + x + VerseClose) + ArabicClose, rtl)
      == ArabicBlock(VerseOpen + x + VerseClose, true)
  {
    var inner := VerseOpen + x + VerseClose;
    PrefixOfWrapped(ArabicOpen, inner, ArabicClose);
    StripArabicAroundVerse(x);
    assert inner[0] == '[' && inner[|inner| - 1] == ']';
    TrimIdentity(inner);
  }

  lemma StripArabicAroundVerse(x: string)
    requires '[' !in x
    ensures StripMarkers(ArabicOpen + (VerseOpen + x + VerseClose) + ArabicClose, ArabicOpen, ArabicClose)
      == VerseOpen + x + VerseClose
  {
    assert VerseOpen[2] != ArabicOpen[2];
    assert VerseOpen[2] != ArabicClose[2];
    assert VerseClose[2] != ArabicOpen[2];
    assert VerseClose[2] != ArabicClose[2];
    ArabicMarkers();
    VerseMarkers();
    StripOwnClose(ArabicOpen, ArabicClose);
    StripNested(ArabicOpen, ArabicClose, VerseOpen, x, VerseClose, 2);
  }

  /** A marker that differs from both stripped markers at some position passes through stripping untouched. */
  lemma StripForeign(m: string, x: string, open: string, close: string, k: nat)
    requires IsMarker(open) && IsMarker(close) && IsMarker(m) && '[' !in x
    requires k < |m| && k < |open| && k < |close| && m[k] != open[k] && m[k] != close[k]
    ensures StripMarkers(m + x, open, close) == m + x
  {
    var s := m + x;
    NotPrefixAt(open, m, x, k);
    NotPrefixAt(close, m, x, k);
    var tail := m[1..] + x;
    DropOfConcat(m, x, 1);
    StripWithoutBracket(tail, open, close);
    assert s == [m[0]] + tail;
  }

  lemma PrefixOfWrapped(open: string, t: string, close: string)
    ensures open <= open + t + close
  {
    assert (open + t + close)[..|open|] == open;
  }

  /** Past the first character of a wrapped block. */
  lemma WrappedTail(open: string, t: string, close: string)
    requires |open| >= 2
    ensures (open + t + close)[1] == open[1]
    ensures (open + t + close)[1..] == (open[1..] + t) + close
  {
  }

  /** The two sides of a separator character. */
  lemma AroundSeparator(a: string, c: char, b: string)
    ensures (a + [c] + b)[..|a|] == a
    ensures (a + [c] + b)[|a| + 1..] == b
  {
    assert (a + [c] + b)[|a|] == c;
  }

  /** A string that differs from `m` at a position inside `m` does not prefix `m + x`. */
  lemma NotPrefixAt(p: string, m: string, x: string, k: nat)
    requires k < |m| && k < |p| && m[k] != p[k]
    ensures !(p <= m + x)
  {
    assert (m + x)[k] == m[k];
  }

  /** A closing marker that the opening one does not prefix is removed entirely. */
  lemma StripOwnClose(open: string, close: string)
    requires IsMarker(open) && IsMarker(close) && !(open <= close)
    ensures StripMarkers(close, open, close) == []
  {
    assert close <= close && close[|close|..] == [];
  }

  /** Stripping one pair of markers leaves a pair of other markers nested inside it in place. */
  lemma StripNested(open: string, close: string, m1: string, x: string, m2: string, k: nat)
    requires IsMarker(open) && IsMarker(close) && IsMarker(m1) && IsMarker(m2)
    requires StripMarkers(close, open, close) == []
    requires '[' !in x
    requires k < |open| && k < |close| && k < |m1| && k < |m2|
    requires m1[k] != open[k] && m1[k] != close[k] && m2[k] != open[k] && m2[k] != close[k]
    ensures StripMarkers(open + (m1 + x + m2) + close, open, close) == m1 + x + m2
  {
    var y := m1 + x;
    StripForeign(m1, x, open, close, k);
    assert m2 + [] == m2;
    StripForeign(m2, [], open, close, k);
    StripLeadingMarker(open, y, close);
    var a := open + y;
    StripAppend(a, m2, open, close);
    var b := StripMarkers(a + m2, open, close);
    assert b == y + m2;
    StripAppend(a + m2, close, open, close);
    assert StripMarkers((a + m2) + close, open, close) == b + [];
    Regroup(open, m1, x, m2, close);
  }

  lemma Regroup(a: string, b: string, c: string, d: string, e: string)
    ensures a + (b + c + d) + e == ((a + (b + c)) + d) + e
  {
  }

  /** A marker at the front is dropped. */
  lemma StripLeadingMarker(m: string, y: string, other: string)
    requires m != [] && other != []
    ensures StripMarkers(m + y, m, other) == StripMarkers(y, m, other)
  {
    assert m <= m + y && (m + y)[|m|..] == y;
  }

  /** A quote loses its '>' and the whitespace after it. */
  lemma QuoteSection(w: string, t: string, rtl: bool)
    requires AllSpace(w) && '[' !in w && '[' !in t && (t == [] || !IsSpace(t[0]))
    ensures FormatSection(">" + w + t, rtl) == Quote(t, rtl)
  {
    var s := ">" + w + t;
    assert s == ">" + (w + t) && s[1..] == w + t;
    assert '[' !in s;
    assert Chain(s) == QuoteKind by { UnmarkedChain(s); }
    FormatAsKind(s, rtl, QuoteKind);
    TrimStartOfSpaces(w, t);
  }

  /** A section without markers that starts with a bullet glyph is a list of its non-blank lines. */
  lemma BulletSection(s: string, rtl: bool)
    requires '[' !in s && StartsWithBullet(s)
    ensures FormatSection(s, rtl) == BulletList(BulletListItems(s), rtl)
  {
    assert Chain(s) == BulletKind by { UnmarkedChain(s); }
    BulletSectionOf(s, rtl);
  }

  /** A section chosen as a bullet list is the list of its items. */
  lemma BulletSectionOf(s: string, rtl: bool)
    requires Chain(s) == BulletKind
    ensures FormatSection(s, rtl) == BulletList(BulletListItems(s), rtl)
  {
    FormatAsKind(s, rtl, BulletKind);
  }

  /** A line without markers that starts with neither a bullet glyph nor '>' is a paragraph of itself. */
  lemma ParagraphSection(s: string, rtl: bool)
    requires '[' !in s && !StartsWithBullet(s) && !StartsWithQuote(s)
    ensures FormatSection(s, rtl) == Paragraph(s, rtl)
  {
    assert Chain(s) == ParagraphKind by { UnmarkedChain(s); }
    FormatAsKind(s, rtl, ParagraphKind);
  }

  /** Two bullet lines become a list of two normalised items, in order. */
  lemma TwoBulletLines(a: string, b: string, rtl: bool)
    requires '[' !in a && '[' !in b && '\n' !in a && '\n' !in b
    requires StartsWithBullet(a) && !AllSpace(b)
    ensures FormatSection(a + "\n" + b, rtl) == BulletList([BulletItem(a), BulletItem(b)], rtl)
  {
    var s := a + "\n" + b;
    assert '[' !in s;
    assert StartsWithBullet(s) by { assert s[0] == a[0]; }
    BulletSection(s, rtl);
    TwoItems(a, b);
  }

  lemma TwoItems(a: string, b: string)
    requires '\n' !in a && '\n' !in b && StartsWithBullet(a) && !AllSpace(b)
    ensures BulletListItems(a + "\n" + b) == [BulletItem(a), BulletItem(b)]
  {
    TwoLines(a, b);
    assert !AllSpace(a) by { assert !IsSpace(a[0]); }
    TwoNonBlankLines(a, b);
    TwoBulletItems(a, b);
  }

  lemma TwoBulletItems(a: string, b: string)
    ensures BulletItems([a, b]) == [BulletItem(a), BulletItem(b)]
  {
    var r := BulletItems([a, b]);
    assert r[0] == BulletItem(a) && r[1] == BulletItem(b);
  }

  lemma TwoNonBlankLines(a: string, b: string)
    requires !AllSpace(a) && !AllSpace(b)
    ensures NonBlankLines([a, b]) == [a, b]
  {
    assert [a, b][1..] == [b];
    assert NonBlankLines([b]) == [b];
  }

  lemma TwoLines(a: string, b: string)
    requires '\n' !in a && '\n' !in b
    ensures SplitOn(a + "\n" + b, '\n') == [a, b]
  {
    var s := a + "\n" + b;
    IndexOfConcat(a, '\n', b);
    assert s == a + ['\n'] + b && s[..|a|] == a && s[|a| + 1..] == b;
  }

  // ---------------------------------------------------------------------
  // Whole replies

  /** A reply on one line is a single section. */
  lemma OneLineReply(text: string, language: string)
    requires '\n' !in text
    ensures FormatMessageContent(text, language) == [FormatSection(text, IsRtlLanguage(language))]
  {
    SectionsWithoutLineBreak(text);
  }

  /** Paragraphs separated by blank lines stay separate and in order. */
  lemma ThreeParagraphs(a: string, b: string, c: string, language: string)
    requires '[' !in a && '[' !in b && '[' !in c && '\n' !in a && '\n' !in b && '\n' !in c
    requires b != [] && c != [] && !IsSpace(b[0]) && !IsSpace(c[0])
    requires forall x | x in [a, b, c] :: !StartsWithBullet(x) && !StartsWithQuote(x)
    ensures FormatMessageContent(a + "\n\n" + b + "\n\n" + c, language) ==
      [Paragraph(a, IsRtlLanguage(language)), Paragraph(b, IsRtlLanguage(language)), Paragraph(c, IsRtlLanguage(language))]
  {
    var rtl := IsRtlLanguage(language);
    ThreeSections(a, b, c);
    assert [a, b, c][1..] == [b, c] && [b, c][1..] == [c];
    ParagraphSection(a, rtl);
    ParagraphSection(b, rtl);
    ParagraphSection(c, rtl);
  }

  lemma ThreeSections(a: string, b: string, c: string)
    requires '\n' !in a && '\n' !in b && '\n' !in c
    requires b != [] && c != [] && !IsSpace(b[0]) && !IsSpace(c[0])
    ensures Sections(a + "\n\n" + b + "\n\n" + c) == [a, b, c]
  {
    SectionsWithoutLineBreak(c);
    SectionsCons(b, c);
    assert a + "\n\n" + b + "\n\n" + c == a + "\n\n" + (b + "\n\n" + c);
    SectionsCons(a, b + "\n\n" + c);
  }

  /** A reply that is one Arabic block on one line. */
  lemma ArabicReply(t: string, language: string)
    requires '[' !in t && '\n' !in t
    ensures FormatMessageContent(ArabicOpen + t + ArabicClose, language) == [ArabicBlock(Trim(t), true)]
  {
    assert '\n' !in ArabicOpen + t + ArabicClose;
    OneLineReply(ArabicOpen + t + ArabicClose, language);
    ArabicSection(t, IsRtlLanguage(language));
  }

  /** A reply that is one verse block on one line: text, whitespace, then its reference in parentheses. */
  lemma VerseReply(body: string, pad: string, ref: string, language: string)
    requires '[' !in body && '[' !in ref && '(' !in body && ref != ""
    requires '\n' !in body && '\n' !in ref && AllSpace(pad) && '\n' !in pad
    requires body == [] || (!IsSpace(body[0]) && !IsSpace(body[|body| - 1]))
    ensures FormatMessageContent(VerseOpen + ((body + pad) + "(" + ref + ")") + VerseClose, language)
      == [Verse(body, Some(ref), IsRtlLanguage(language))]
  {
    var t := (body + pad) + "(" + ref + ")";
    assert '\n' !in VerseOpen + t + VerseClose;
    OneLineReply(VerseOpen + t + VerseClose, language);
    PaddedVerse(body, pad, ref, IsRtlLanguage(language));
  }

  lemma PaddedVerse(body: string, pad: string, ref: string, rtl: bool)
    requires '[' !in body && '[' !in ref && '(' !in body && ref != ""
    requires AllSpace(pad) && '\n' !in pad
    requires body == [] || (!IsSpace(body[0]) && !IsSpace(body[|body| - 1]))
    ensures FormatSection(VerseOpen + ((body + pad) + "(" + ref + ")") + VerseClose, rtl)
      == Verse(body, Some(ref), rtl)
  {
    assert '[' !in pad && '(' !in pad;
    VerseSection(body + pad, ref, rtl);
    TrimTrailing(body, pad);
  }

  lemma TrimTrailing(body: string, pad: string)
    requires AllSpace(pad)
    requires body == [] || (!IsSpace(body[0]) && !IsSpace(body[|body| - 1]))
    ensures Trim(body + pad) == body
  {
    assert body + pad == [] + body + pad;
    TrimOfPadded([], body, pad);
  }

  /** A reply that is one hadith block: a line of text and a line holding its reference. */
  lemma HadithReply(first: string, ref: string, language: string)
    requires '[' !in first && '[' !in ref && '\n' !in first && '\n' !in ref
    requires ref != [] && !IsSpace(ref[0]) && !IsSpace(ref[|ref| - 1])
    ensures FormatMessageContent(HadithOpen + (first + "\n" + ref) + HadithClose, language)
      == [Hadith(first, Some(ref), IsRtlLanguage(language))]
  {
    var text := HadithOpen + (first + "\n" + ref) + HadithClose;
    assert '\n' !in HadithOpen + first && '\n' !in ref + HadithClose;
    assert text == (HadithOpen + first) + "\n" + (ref + HadithClose);
    SectionsWithOneLineBreak(HadithOpen + first, ref + HadithClose);
    HadithSection(first, ref, IsRtlLanguage(language));
    TrimIdentity(ref);
  }

  /** A reply that is two bullet lines. */
  lemma BulletReply(a: string, b: string, language: string)
    requires '[' !in a && '[' !in b && '\n' !in a && '\n' !in b
    requires StartsWithBullet(a) && !AllSpace(b)
    ensures FormatMessageContent(a + "\n" + b, language)
      == [BulletList([BulletItem(a), BulletItem(b)], IsRtlLanguage(language))]
  {
    SectionsWithOneLineBreak(a, b);
    TwoBulletLines(a, b, IsRtlLanguage(language));
  }

  /** A line without a glyph under a bullet line is an item of its own, its text kept behind "• ". */
  lemma BulletContinuation(x: string, more: string, rtl: bool)
    requires '[' !in x && '[' !in more && '\n' !in x && '\n' !in more
    requires x != [] && !IsSpace(x[0])
    requires more != [] && !IsBulletGlyph(more[0]) && !AllSpace(more)
    ensures FormatSection(("• " + x) + "\n" + more, rtl) == BulletList(["• " + x, "• " + more], rtl)
  {
    var a := "• " + x;
    assert a == ['•'] + " " + x;
    TwoBulletLines(a, more, rtl);
    BulletItemNormalises('•', " ", x);
  }

  /** A reply of two lines written "• x" and "• y" lists x and y behind a single glyph each. */
  lemma NormalisedBullets(x: string, y: string, language: string)
    requires '[' !in x && '[' !in y && '\n' !in x && '\n' !in y
    requires x != [] && !IsSpace(x[0]) && y != [] && !IsSpace(y[0])
    ensures FormatMessageContent(("• " + x) + "\n" + ("• " + y), language)
      == [BulletList(["• " + x, "• " + y], IsRtlLanguage(language))]
  {
    var a, b := "• " + x, "• " + y;
    assert a == ['•'] + " " + x && b == ['•'] + " " + y;
    assert !IsSpace(b[0]);
    BulletReply(a, b, language);
    BulletItemNormalises('•', " ", x);
    BulletItemNormalises('•', " ", y);
  }
}
