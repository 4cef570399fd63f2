/**
  The language tables of the chat component and its language detection.
  The three lookups (system prompt, welcome message, presentation config)
  are keyed by a free-form tag and fall back to the English entry for any
  tag that is not one of the four supported ones.  Detection wraps a
  statistical detector whose ranked guesses are an input here.
*/
module Languages {
  import opened JsText

  datatype Language = Arabic | Urdu | Bengali | English

  /** The tag each supported language is keyed by in the tables. */
  function TagOf(l: Language): string {
    match l
    case Arabic => "arabic"
    case Urdu => "urdu"
    case Bengali => "bengali"
    case English => "english"
  }

  predicate IsSupported(tag: string) {
    tag == "arabic" || tag == "urdu" || tag == "bengali" || tag == "english"
  }

  /**
    The entry `table[tag] || table.english` reads: the language the tag
    names when it names one, English for every other tag.
  */
  function Resolve(tag: string): (l: Language)
    ensures IsSupported(tag) ==> TagOf(l) == tag
    ensures !IsSupported(tag) ==> l == English
  {
    if tag == "arabic" then Arabic
    else if tag == "urdu" then Urdu
    else if tag == "bengali" then Bengali
    else English
  }

  /** Resolving a language's own tag gives that language back. */
  lemma ResolveTagOf(l: Language)
    ensures Resolve(TagOf(l)) == l
  {
  }

  datatype Direction = Ltr | Rtl

  datatype Honorifics = Honorifics(prophet: string, companion: string, scholar: string)

  datatype LanguageConfig = LanguageConfig(
    direction: Direction,
    font: string,
    honorifics: Honorifics,
    placeholder: string,
    thinking: string,
    send: string,
    welcome: string)

  /** The four-entry presentation table, one function per column. */
  function ConfigOf(l: Language): LanguageConfig {
    LanguageConfig(DirectionOf(l), FontOf(l), HonorificsOf(l), PlaceholderOf(l), ThinkingOf(l), SendOf(l), GreetingOf(l))
  }

  function DirectionOf(l: Language): Direction {
    match l
    case Arabic => Rtl
    case Urdu => Rtl
    case Bengali => Ltr
    case English => Ltr
  }

  function FontOf(l: Language): string {
    match l
    case Arabic => "'Amiri', 'Traditional Arabic', serif"
    case Urdu => "'Noto Nastaliq Urdu', 'Jameel Noori Nastaleeq', serif"
    case Bengali => "'Noto Sans Bengali', sans-serif"
    case English => "'Arial', sans-serif"
  }

  function HonorificsOf(l: Language): Honorifics {
    match l
    case Arabic => Honorifics("ﷺ", "رضي الله عنه", "رحمه الله")
    case Urdu => Honorifics("صلی اللہ علیہ وسلم", "رضی اللہ عنہ", "رحمۃ اللہ علیہ")
    case Bengali => Honorifics("সাল্লাল্লাহু আলাইহি ওয়া সাল্লাম", "রাদিয়াল্লাহু আনহু", "রহমাতুল্লাহি আলাইহি")
    case English => Honorifics("(peace be upon him)", "(may Allah be pleased with them)", "(may Allah have mercy on him)")
  }

  function PlaceholderOf(l: Language): string {
    match l
    case Arabic => "اكتب رسالتك هنا..."
    case Urdu => "اپنا پیغام یہاں لکھیں..."
    case Bengali => "আপনার বার্তা এখানে লিখুন..."
    case English => "Type your message here..."
  }

  function ThinkingOf(l: Language): string {
    match l
    case Arabic => "جاري التفكير..."
    case Urdu => "سوچ رہا ہے..."
    case Bengali => "ভাবছি..."
    case English => "Thinking..."
  }

  function SendOf(l: Language): string {
    match l
    case Arabic => "إرسال"
    case Urdu => "بھیجیں"
    case Bengali => "পাঠান"
    case English => "Send"
  }

  /** The short greeting of the table, not the welcome message a session opens with. */
  function GreetingOf(l: Language): string {
    match l
    case Arabic => "السلام عليكم"
    case Urdu => "السلام علیکم"
    case Bengali => "আসসালামু আলাইকুম"
    case English => "As-salaam-alaikum"
  }

  /**
    The four system instruction templates.  Their long hand-written texts
    are data, not logic; each is stood for by a distinct constant.
  */
  function PromptOf(l: Language): string {
    match l
    case Arabic => "<system instructions, Arabic>"
    case Urdu => "<system instructions, Urdu>"
    case Bengali => "<system instructions, Bengali>"
    case English => "<system instructions, English>"
  }

  /** The four greetings a new session can open with, stood for by distinct constants like the prompts. */
  function WelcomeOf(l: Language): string {
    match l
    case Arabic => "<welcome message, Arabic>"
    case Urdu => "<welcome message, Urdu>"
    case Bengali => "<welcome message, Bengali>"
    case English => "<welcome message, English>"
  }

  /** The four tags are told apart, so a tag resolves to the language it is the tag of. */
  lemma ResolveOnTags()
    ensures forall l :: Resolve(TagOf(l)) == l
  {
    forall l ensures Resolve(TagOf(l)) == l {
      ResolveTagOf(l);
    }
  }

  /** `getSystemPromptForLanguage`: the tag's own template, or the English one for any unsupported tag. */
  function SystemPromptForLanguage(tag: string): (r: string)
    ensures forall l :: tag == TagOf(l) ==> r == PromptOf(l)
    ensures !IsSupported(tag) ==> r == PromptOf(English)
  {
    ResolveOnTags();
    PromptOf(Resolve(tag))
  }

  /** `getWelcomeMessage`: the tag's own greeting, or the English one for any unsupported tag. */
  function WelcomeMessage(tag: string): (r: string)
    ensures forall l :: tag == TagOf(l) ==> r == WelcomeOf(l)
    ensures !IsSupported(tag) ==> r == WelcomeOf(English)
  {
    ResolveOnTags();
    WelcomeOf(Resolve(tag))
  }

  /** `getLanguageConfig`: the tag's own entry, or the English entry for any unsupported tag. */
  function LanguageConfigFor(tag: string): (c: LanguageConfig)
    ensures forall l :: tag == TagOf(l) ==> c == ConfigOf(l)
    ensures !IsSupported(tag) ==> c == ConfigOf(English)
  {
    ResolveOnTags();
    ConfigOf(Resolve(tag))
  }

  /** Every entry has a placeholder, so `config.placeholder || english.placeholder` always takes the first. */
  lemma PlaceholderPresent(l: Language)
    ensures ConfigOf(l).placeholder != ""
  {
    assert |PlaceholderOf(l)| >= 4;
  }

  /** Different languages never share a system prompt. */
  lemma PromptsDistinct(a: Language, b: Language)
    requires a != b
    ensures PromptOf(a) != PromptOf(b)
  {
    assert PromptOf(a)[22] != PromptOf(b)[22];
  }

  /** Different languages never share a greeting. */
  lemma WelcomesDistinct(a: Language, b: Language)
    requires a != b
    ensures WelcomeOf(a) != WelcomeOf(b)
  {
    assert WelcomeOf(a)[18] != WelcomeOf(b)[18];
  }

  /** Different languages never share a presentation entry: their send labels start differently. */
  lemma ConfigsDistinct(a: Language, b: Language)
    requires a != b
    ensures ConfigOf(a) != ConfigOf(b)
  {
    SendInitial(a);
    SendInitial(b);
    assert Initial(a) != Initial(b);
    assert SendOf(a) != SendOf(b);
  }

  /** The first letter of each send label. */
  function Initial(l: Language): char {
    match l
    case Arabic => 'إ'
    case Urdu => 'ب'
    case Bengali => 'প'
    case English => 'S'
  }

  lemma SendInitial(l: Language)
    ensures SendOf(l) != [] && SendOf(l)[0] == Initial(l)
  {
    match l
    case Arabic =>
    case Urdu =>
    case Bengali =>
    case English =>
  }

  /** Exactly Arabic and Urdu are laid out right to left. */
  lemma RightToLeftLanguages(tag: string)
    ensures LanguageConfigFor(tag).direction == Rtl <==> (tag == "arabic" || tag == "urdu")
  {
  }

  /**
    `detectLanguage`: English for the empty string or when the detector has
    no guess; otherwise the lower-cased name of the detector's top guess,
    whatever language that names.  `guesses` is the detector's ranked list
    of language names for `text` (its confidences are not used).
  */
  function DetectLanguage(text: string, guesses: seq<string>): (tag: string)
    ensures text == "" || guesses == [] ==> tag == "english"
    ensures text != "" && guesses != [] ==> tag == ToLower(guesses[0])
    ensures HasNoUpper(tag)
  {
    if text == "" then "english"
    else if guesses == [] then "english"
    else ToLower(guesses[0])
  }

  /** A top guess that names a supported language, in any letter case, selects that language's tables. */
  lemma DetectedLanguageSelectsTables(text: string, guesses: seq<string>, l: Language)
    requires text != "" && guesses != [] && ToLower(guesses[0]) == TagOf(l)
    ensures Resolve(DetectLanguage(text, guesses)) == l
    ensures SystemPromptForLanguage(DetectLanguage(text, guesses)) == PromptOf(l)
  {
  }

  /** Detection of a supported language's own tag is the identity. */
  lemma DetectKeepsLowerCaseTag(text: string, rest: seq<string>, l: Language)
    requires text != ""
    ensures DetectLanguage(text, [TagOf(l)] + rest) == TagOf(l)
  {
    TagIsLowerCase(l);
    ToLowerOfLower(TagOf(l));
  }

  lemma TagIsLowerCase(l: Language)
    ensures HasNoUpper(TagOf(l))
  {
    match l
    case Arabic =>
    case Urdu =>
    case Bengali =>
    case English =>
  }

  /**
    Any non-empty text, whitespace-only included, goes to the detector, and
    a guess outside the four languages (the detector names languages in
    lower case, "french", "german", ...) comes back as it is, not as
    English; only the lookups fall back to English for it.
  */
  lemma DetectionIsOpenEnded(text: string, guess: string, rest: seq<string>)
    requires text != "" && HasNoUpper(guess) && !IsSupported(guess)
    ensures DetectLanguage(text, [guess] + rest) == guess
    ensures DetectLanguage(text, [guess] + rest) != "english"
    ensures Resolve(DetectLanguage(text, [guess] + rest)) == English
  {
    ToLowerOfLower(guess);
  }

  /** Whitespace is not empty text: an input of one space is detected like any other. */
  lemma SpaceIsDetected(rest: seq<string>)
    ensures DetectLanguage(" ", ["french"] + rest) == "french"
  {
    assert HasNoUpper("french");
    DetectionIsOpenEnded(" ", "french", rest);
  }
}
