/**
 * The voice handler of voice_handler.py: dialect voice settings and persona
 * prosody modifiers, the text clean-up and truncation applied before speech,
 * the SSML markup with timed pauses, and the control flow of one
 * text-to-speech request. The cloud synthesis call (with the base64
 * encoding of its audio) is a function parameter whose `None` stands for an
 * exception raised anywhere in it.
 */
module Voice {
  import opened Wrappers
  import opened PyStr

  // ---------------------------------------------------------------------------
  // Voice settings

  /** A dialect's base voice: the Wavenet voice name, speaking rate and pitch. */
  datatype VoiceConfig = VoiceConfig(name: string, speakingRate: real, pitch: real)

  /** A persona's prosody adjustment: pitch is added, rate is multiplied. */
  datatype PersonaModifier = PersonaModifier(pitchAdjust: real, rateAdjust: real)

  const VoiceConfigs: map<string, VoiceConfig> := map[
    "CHENNAI" := VoiceConfig("ta-IN-Wavenet-A", 1.15, 1.0),
    "KOVAI" := VoiceConfig("ta-IN-Wavenet-B", 0.92, 0.0),
    "MADURAI" := VoiceConfig("ta-IN-Wavenet-A", 1.0, -2.0),
    "NELLAI" := VoiceConfig("ta-IN-Wavenet-A", 1.1, 2.0),
    "EELAM" := VoiceConfig("ta-IN-Wavenet-B", 0.95, 0.0),
    "COMMON" := VoiceConfig("ta-IN-Wavenet-A", 1.0, 0.0)
  ]

  const PersonaModifiers: map<string, PersonaModifier> := map[
    "JALIANA" := PersonaModifier(1.0, 1.05),
    "AMAITHIYANA" := PersonaModifier(-0.5, 0.92),
    "THELIVANA" := PersonaModifier(0.0, 1.0),
    "VILAKKAMAANA" := PersonaModifier(-1.0, 0.95)
  ]

  /** `voice_config.get(slang, voice_config['COMMON'])`. */
  function ResolveVoice(slang: string): (cfg: VoiceConfig)
    ensures slang in VoiceConfigs ==> cfg == VoiceConfigs[slang]
    ensures slang !in VoiceConfigs ==> cfg == VoiceConfig("ta-IN-Wavenet-A", 1.0, 0.0)
  {
    if slang in VoiceConfigs then VoiceConfigs[slang] else VoiceConfigs["COMMON"]
  }

  /** `persona_modifiers.get(persona, persona_modifiers['JALIANA'])`. */
  function ResolveModifier(persona: string): (m: PersonaModifier)
    ensures persona in PersonaModifiers ==> m == PersonaModifiers[persona]
    ensures persona !in PersonaModifiers ==> m == PersonaModifier(1.0, 1.05)
  {
    if persona in PersonaModifiers then PersonaModifiers[persona] else PersonaModifiers["JALIANA"]
  }

  /**
   * The final speaking rate, base rate times persona adjustment. Over all
   * dialects and personas it lies between 0.92 * 0.92 and 1.15 * 1.05.
   */
  function FinalRate(slang: string, persona: string): (rate: real)
    ensures 0.8464 <= rate <= 1.2075
  {
    ResolveVoice(slang).speakingRate * ResolveModifier(persona).rateAdjust
  }

  /** The final pitch, base pitch plus persona adjustment: within three semitones either way. */
  function FinalPitch(slang: string, persona: string): (pitch: real)
    ensures -3.0 <= pitch <= 3.0
  {
    ResolveVoice(slang).pitch + ResolveModifier(persona).pitchAdjust
  }

  // ---------------------------------------------------------------------------
  // Text clean-up

  /**
   * The emoji strings removed before speech, in removal order. They are
   * copied code point for code point; they are mis-decoded UTF-8 rather than
   * the emoji themselves, and several share prefixes.
   */
  const EmojiList: seq<string> := [
    "\U{11F}\U{178}\U{2DC}\U{201E}",
    "\U{11F}\U{178}\U{201D}\U{A5}",
    "\U{11F}\U{178}\U{2DC}\U{160}",
    "\U{11F}\U{178}\U{2DC}\U{2026}",
    "\U{11F}\U{178}\U{2030}",
    "\U{11F}\U{178}\U{2018}",
    "\U{11F}\U{178}\U{2019}\U{AA}",
    "\U{11F}\U{178}\U{161}\U{20AC}",
    "\U{E2}\U{AD}",
    "\U{E2}\U{153}\U{A8}",
    "\U{11F}\U{178}\U{2019}\U{AF}",
    "\U{11F}\U{178}\U{2DC}\U{201A}",
    "\U{11F}\U{178}\U{A4}\U{A3}",
    "\U{11F}\U{178}\U{2DC}",
    "\U{11F}\U{178}\U{A5}\U{B0}",
    "\U{11F}\U{178}\U{2DC}"
  ]

  predicate NonEmptyPatterns(patterns: seq<string>) {
    forall i | 0 <= i < |patterns| :: patterns[i] != []
  }

  /** `text` with each pattern removed in turn, the first pattern first. */
  function StripAll(text: string, patterns: seq<string>): string
    requires NonEmptyPatterns(patterns)
  {
    if patterns == [] then text
    else Replace(StripAll(text, patterns[..|patterns| - 1]), patterns[|patterns| - 1], "")
  }

  /** Text holding none of the patterns is not changed by removing them. */
  lemma {:induction false} StripAllAbsent(text: string, patterns: seq<string>)
    requires NonEmptyPatterns(patterns)
    requires forall i | 0 <= i < |patterns| :: !Contains(text, patterns[i])
    ensures StripAll(text, patterns) == text
  {
    if patterns != [] {
      StripAllAbsent(text, patterns[..|patterns| - 1]);
      ReplaceAbsent(text, patterns[|patterns| - 1], "");
    }
  }

  /** What `_clean_text_for_tts` computes: emoji removed, then whitespace collapsed. */
  function CleanText(text: string): string {
    CollapseWhitespace(StripAll(text, EmojiList))
  }

  /** `_clean_text_for_tts`. */
  method CleanTextForTts(text: string) returns (cleaned: string)
    ensures cleaned == CleanText(text)
    ensures |cleaned| > 0 ==> !IsSpace(cleaned[0]) && !IsSpace(cleaned[|cleaned| - 1])
    ensures forall k | 0 <= k < |cleaned| :: IsSpace(cleaned[k]) ==> cleaned[k] == ' '
    ensures forall k | 0 <= k < |cleaned| - 1 :: NoSpaceAfterSpace(cleaned, k)
  {
    var emojiList := EmojiList;
    cleaned := text;
    for i := 0 to |emojiList|
      invariant cleaned == StripAll(text, emojiList[..i])
    {
      assert emojiList[..i + 1][..i] == emojiList[..i];
      cleaned := Replace(cleaned, emojiList[i], "");
    }
    assert emojiList[..|emojiList|] == emojiList;
    cleaned := Join(Split(cleaned), " ");
  }

  /** Text free of the listed emoji and already in whitespace normal form comes out of the clean-up unchanged. */
  lemma CleanTextKeepsCleanText(text: string)
    requires forall i | 0 <= i < |EmojiList| :: !Contains(text, EmojiList[i])
    requires SingleSpaced(text)
    ensures CleanText(text) == text
  {
    StripAllAbsent(text, EmojiList);
    CollapseKeepsSingleSpaced(text);
  }

  // ---------------------------------------------------------------------------
  // Truncation

  const MaxSpokenLength: nat := 500

  /** The text actually spoken: at most 500 characters, then an ellipsis if anything was cut. */
  function SpokenText(clean: string): (spoken: string)
    ensures |spoken| <= MaxSpokenLength + 3
    ensures |clean| <= MaxSpokenLength ==> spoken == clean
    ensures |clean| > MaxSpokenLength ==>
      |spoken| == MaxSpokenLength + 3 && clean[..MaxSpokenLength] <= spoken && spoken[MaxSpokenLength..] == "..."
  {
    if |clean| > MaxSpokenLength then clean[..MaxSpokenLength] + "..." else clean
  }

  // ---------------------------------------------------------------------------
  // SSML

  const Pause300: string := "<break time=\"300ms\"/>"
  const Pause500: string := "<break time=\"500ms\"/>"
  const Pause200: string := "<break time=\"200ms\"/>"
  const Pause150: string := "<break time=\"150ms\"/>"

  /** The five replacements of `_create_ssml`, in their order. */
  function InsertPauses(text: string): string {
    var s1 := Replace(text, "!", Pause300);
    var s2 := Replace(s1, "?", Pause300);
    var s3 := Replace(s2, "...", Pause500);
    var s4 := Replace(s3, ".", Pause200);
    Replace(s4, ",", Pause150)
  }

  /**
   * The f-string of `_create_ssml`, cut at the paused text: a line break and
   * the eight-space indentation of the method body on the outside, the tags
   * and their own indentation on the inside.
   */
  const Pad: string := "\n        "
  const SpeakOpen: string := "<speak>\n            "
  const SpeakClose: string := "\n        </speak>"

  /** `_create_ssml`: the f-string around the paused text, then `strip()`. */
  function CreateSsml(text: string): string {
    Strip(Pad + SpeakOpen + InsertPauses(text) + SpeakClose + Pad)
  }

  /** None of the characters the pause steps replace. */
  predicate NoPausePunctuation(s: string) {
    '!' !in s && '?' !in s && '.' !in s && ',' !in s
  }

  /** A pause step keeps out each of these characters that is not already in its input. */
  lemma PauseStepAddsNoPunctuation(s: string, pat: string, tag: string)
    requires pat != [] && NoPausePunctuation(tag)
    ensures '!' !in s ==> '!' !in Replace(s, pat, tag)
    ensures '?' !in s ==> '?' !in Replace(s, pat, tag)
    ensures '.' !in s ==> '.' !in Replace(s, pat, tag)
    ensures ',' !in s ==> ',' !in Replace(s, pat, tag)
  {
    if '!' !in s { ReplaceAddsNoChar(s, pat, tag, '!'); }
    if '?' !in s { ReplaceAddsNoChar(s, pat, tag, '?'); }
    if '.' !in s { ReplaceAddsNoChar(s, pat, tag, '.'); }
    if ',' !in s { ReplaceAddsNoChar(s, pat, tag, ','); }
  }

  /** The markup is made of digits, letters, spaces, line breaks and the characters `<=/">`. */
  predicate TagChar(c: char) {
    c == '<' || c == '>' || c == '/' || c == '=' || c == '"' || c == ' ' || c == '\n'
    || 'a' <= c <= 'z' || '0' <= c <= '9'
  }

  lemma TagCharsHaveNoPunctuation(s: string)
    requires forall i | 0 <= i < |s| :: TagChar(s[i])
    ensures NoPausePunctuation(s)
  {
  }

  lemma TagsHaveNoPunctuation()
    ensures NoPausePunctuation(Pause300) && NoPausePunctuation(Pause500)
    ensures NoPausePunctuation(Pause200) && NoPausePunctuation(Pause150)
  {
    TagCharsHaveNoPunctuation(Pause300);
    TagCharsHaveNoPunctuation(Pause500);
    TagCharsHaveNoPunctuation(Pause200);
    TagCharsHaveNoPunctuation(Pause150);
  }

  lemma NoPausePunctuationLeft(text: string)
    ensures NoPausePunctuation(InsertPauses(text))
  {
    TagsHaveNoPunctuation();
    var s1 := Replace(text, "!", Pause300);
    ReplaceRemovesChar(text, '!', Pause300);
    var s2 := Replace(s1, "?", Pause300);
    ReplaceRemovesChar(s1, '?', Pause300);
    PauseStepAddsNoPunctuation(s1, "?", Pause300);
    var s3 := Replace(s2, "...", Pause500);
    PauseStepAddsNoPunctuation(s2, "...", Pause500);
    var s4 := Replace(s3, ".", Pause200);
    ReplaceRemovesChar(s3, '.', Pause200);
    PauseStepAddsNoPunctuation(s3, ".", Pause200);
    ReplaceRemovesChar(s4, ',', Pause150);
    PauseStepAddsNoPunctuation(s4, ",", Pause150);
    assert InsertPauses(text) == Replace(s4, ",", Pause150);
  }

  /** Facts about the template's fixed pieces. */
  lemma TemplateLiterals()
    ensures AllSpace(Pad)
    ensures |SpeakOpen| > 7 && SpeakOpen[..7] == "<speak>" && !IsSpace(SpeakOpen[0])
    ensures |SpeakClose| > 8 && SpeakClose[|SpeakClose| - 8..] == "</speak>"
    ensures !IsSpace(SpeakClose[|SpeakClose| - 1])
  {
  }

  /** Text wrapped between an opening and a closing piece starts and ends like them. */
  lemma WrappedEnds(open: string, mid: string, close: string)
    requires |open| > 7 && |close| > 8
    ensures var body := open + mid + close;
      && body[0] == open[0] && body[|body| - 1] == close[|close| - 1]
      && body[..7] == open[..7] && body[|body| - 8..] == close[|close| - 8..]
  {
  }

  /** The SSML document is `<speak>`, the paused text and `</speak>`, with the template's inner line breaks. */
  lemma SsmlShape(text: string)
    ensures CreateSsml(text) == SpeakOpen + InsertPauses(text) + SpeakClose
    ensures "<speak>" <= CreateSsml(text)
    ensures |CreateSsml(text)| >= 8 && CreateSsml(text)[|CreateSsml(text)| - 8..] == "</speak>"
  {
    TemplateLiterals();
    var paused := InsertPauses(text);
    var body := SpeakOpen + paused + SpeakClose;
    WrappedEnds(SpeakOpen, paused, SpeakClose);
    assert Pad + SpeakOpen + paused + SpeakClose + Pad == Pad + body + Pad;
    StripPadded(Pad, body, Pad);
  }

  /** The whole SSML document holds no `!`, `?`, `.` or `,`. */
  lemma SsmlHasNoPausePunctuation(text: string)
    ensures NoPausePunctuation(CreateSsml(text))
  {
    SsmlShape(text);
    NoPausePunctuationLeft(text);
    TagCharsHaveNoPunctuation(SpeakOpen);
    TagCharsHaveNoPunctuation(SpeakClose);
  }

  /** The ellipsis right after `s` is the first one in `s + "..."`: no match of it starts inside `s`. */
  ghost predicate EllipsisFirstAfter(s: string) {
    forall i | 0 <= i < |s| :: !OccursAt(s + "...", "...", i)
  }

  /** Text with no ellipsis of its own and no dot at its end is followed by the first ellipsis. */
  lemma FirstEllipsisAfterPlainText(s: string)
    requires !Contains(s, "...") && (s == [] || s[|s| - 1] != '.')
    ensures EllipsisFirstAfter(s)
  {
    var u := s + "...";
    forall i | 0 <= i < |s|
      ensures !OccursAt(u, "...", i)
    {
      if i + 3 <= |s| {
        assert !("..." <= s[i..]);
        assert s[i..][..3] == u[i..][..3];
      } else {
        assert u[i..][|s| - 1 - i] == s[|s| - 1];
      }
    }
  }

  /** Text followed by its first ellipsis holds no ellipsis itself. */
  lemma NoEllipsisBeforeFirst(s: string)
    requires EllipsisFirstAfter(s)
    ensures !Contains(s, "...")
  {
    forall i | 0 <= i <= |s|
      ensures !("..." <= s[i..])
    {
      if i + 3 <= |s| {
        assert !OccursAt(s + "...", "...", i);
        assert (s + "...")[i..][..3] == s[i..][..3];
      }
    }
  }

  /**
   * Replacing a character other than a dot by a non-empty text without dots
   * keeps whether the text, read on into a following ellipsis, starts with
   * one dot or with two.
   */
  lemma {:induction false} ReplaceKeepsLeadingDots(s: string, c: char, rep: string)
    requires c != '.' && rep != [] && '.' !in rep
    ensures ("." <= s + "...") <==> ("." <= Replace(s, [c], rep) + "...")
    ensures (".." <= s + "...") <==> (".." <= Replace(s, [c], rep) + "...")
    decreases |s|
  {
    if s != [] {
      var t := Replace(s[1..], [c], rep);
      ReplaceKeepsLeadingDots(s[1..], c, rep);
      assert (s + "...")[1..] == s[1..] + "...";
      if s[0] == c {
        assert s[..1] == [c];
        assert Replace(s, [c], rep) + "..." == rep + (t + "...");
        assert (rep + (t + "..."))[0] == rep[0];
      } else {
        assert s[..1] != [c];
        var r := [s[0]] + t + "...";
        assert Replace(s, [c], rep) + "..." == r;
        assert r[0] == s[0] && r[1..] == t + "...";
      }
    }
  }

  /** A prefix stays a prefix once both lose their first element. */
  lemma PrefixDropFirst(x: string, y: string)
    requires |x| > 0 && |y| > 0
    ensures x <= y ==> x[1..] <= y[1..]
  {
  }

  /**
   * Replacing a character other than a dot by a non-empty text without dots
   * keeps the ellipsis after the text the first one.
   */
  lemma {:induction false} ReplaceKeepsEllipsisFirst(s: string, c: char, rep: string)
    requires c != '.' && rep != [] && '.' !in rep
    requires EllipsisFirstAfter(s)
    ensures EllipsisFirstAfter(Replace(s, [c], rep))
    decreases |s|
  {
    if s != [] {
      var s' := s[1..];
      forall i | 0 <= i < |s'|
        ensures !OccursAt(s' + "...", "...", i)
      {
        assert (s' + "...")[i..] == (s + "...")[i + 1..];
        assert !OccursAt(s + "...", "...", i + 1);
      }
      ReplaceKeepsEllipsisFirst(s', c, rep);
      var t := Replace(s', [c], rep);
      var head := if s[0] == c then rep else [s[0]];
      if s[0] == c {
        assert s[..1] == [c];
      } else {
        assert s[..1] != [c];
      }
      assert Replace(s, [c], rep) == head + t;
      var u := head + t;
      forall i | 0 <= i < |u|
        ensures !OccursAt(u + "...", "...", i)
      {
        if i >= |head| {
          assert (u + "...")[i..] == (t + "...")[i - |head|..];
          assert !OccursAt(t + "...", "...", i - |head|);
        } else if s[0] == c {
          assert (u + "...")[i..][0] == rep[i];
        } else if s[0] == '.' {
          assert !OccursAt(s + "...", "...", 0);
          assert (s + "...")[1..] == s' + "...";
          assert (s + "...")[0..] == s + "...";
          assert !(".." <= s' + "...");
          ReplaceKeepsLeadingDots(s', c, rep);
          assert (u + "...")[0..] == u + "...";
          assert (u + "...")[1..] == t + "...";
          PrefixDropFirst("...", u + "...");
          assert "..."[1..] == "..";
        } else {
          assert (u + "...")[0..][0] == s[0];
        }
      }
    }
  }

  /**
   * The first ellipsis of a text becomes exactly one 500 ms break, whatever
   * came before it (full stops included); the text on either side is paused
   * on its own. Applied again to `after`, this covers every ellipsis.
   */
  lemma EllipsisIsOneLongPause(before: string, after: string)
    requires !Contains(before, "...") && (before == [] || before[|before| - 1] != '.')
    ensures InsertPauses(before + "..." + after) == InsertPauses(before) + Pause500 + InsertPauses(after)
  {
    TagsHaveNoPunctuation();
    var dots := "...";
    // `!` and `?` are single characters, so their replacements split at any boundary.
    ReplaceCharConcat(before + dots, after, '!', Pause300);
    ReplaceCharConcat(before, dots, '!', Pause300);
    AbsentHeadNotContained(dots, "!");
    ReplaceAbsent(dots, "!", Pause300);
    var b1, a1 := Replace(before, "!", Pause300), Replace(after, "!", Pause300);
    ReplaceCharConcat(b1 + dots, a1, '?', Pause300);
    ReplaceCharConcat(b1, dots, '?', Pause300);
    AbsentHeadNotContained(dots, "?");
    ReplaceAbsent(dots, "?", Pause300);
    var b2, a2 := Replace(b1, "?", Pause300), Replace(a1, "?", Pause300);
    // The `!` and `?` tags hold no dot, so the ellipsis stays the first one.
    FirstEllipsisAfterPlainText(before);
    ReplaceKeepsEllipsisFirst(before, '!', Pause300);
    ReplaceKeepsEllipsisFirst(b1, '?', Pause300);
    ReplaceFirstMatch(b2, dots, a2, Pause500);
    NoEllipsisBeforeFirst(b2);
    ReplaceAbsent(b2, dots, Pause500);
    var a3 := Replace(a2, dots, Pause500);
    // The 500 ms tag holds neither `.` nor `,`, so the last two steps leave it alone.
    ReplaceCharConcat(b2 + Pause500, a3, '.', Pause200);
    ReplaceCharConcat(b2, Pause500, '.', Pause200);
    AbsentHeadNotContained(Pause500, ".");
    ReplaceAbsent(Pause500, ".", Pause200);
    var b4, a4 := Replace(b2, ".", Pause200), Replace(a3, ".", Pause200);
    ReplaceCharConcat(b4 + Pause500, a4, ',', Pause150);
    ReplaceCharConcat(b4, Pause500, ',', Pause150);
    AbsentHeadNotContained(Pause500, ",");
    ReplaceAbsent(Pause500, ",", Pause150);
  }

  /** A non-empty tag without pause punctuation passes through each pause step unchanged. */
  lemma TagSurvivesStep(x: string, tag: string, y: string, pat: string, rep: string)
    requires pat == "!" || pat == "?" || pat == "..." || pat == "." || pat == ","
    requires tag != [] && NoPausePunctuation(tag)
    ensures Replace(x + tag + y, pat, rep) == Replace(x, pat, rep) + tag + Replace(y, pat, rep)
  {
    forall i | 0 <= i < |tag|
      ensures tag[i] !in pat
    {
      assert tag[i] in tag;
    }
    ReplaceAroundBarrier(x, tag, y, pat, rep);
  }

  /** Every `!` becomes a 300 ms break; the text on either side is paused on its own. */
  lemma ExclamationIsPause(a: string, b: string)
    ensures InsertPauses(a + "!" + b) == InsertPauses(a) + Pause300 + InsertPauses(b)
  {
    TagsHaveNoPunctuation();
    ReplaceCharConcat(a + "!", b, '!', Pause300);
    ReplaceCharConcat(a, "!", '!', Pause300);
    ReplaceOneChar('!', '!', Pause300);
    var x1, y1 := Replace(a, "!", Pause300), Replace(b, "!", Pause300);
    TagSurvivesStep(x1, Pause300, y1, "?", Pause300);
    var x2, y2 := Replace(x1, "?", Pause300), Replace(y1, "?", Pause300);
    TagSurvivesStep(x2, Pause300, y2, "...", Pause500);
    var x3, y3 := Replace(x2, "...", Pause500), Replace(y2, "...", Pause500);
    TagSurvivesStep(x3, Pause300, y3, ".", Pause200);
    var x4, y4 := Replace(x3, ".", Pause200), Replace(y3, ".", Pause200);
    TagSurvivesStep(x4, Pause300, y4, ",", Pause150);
  }

  /** Every `?` becomes a 300 ms break as well. */
  lemma QuestionIsPause(a: string, b: string)
    ensures InsertPauses(a + "?" + b) == InsertPauses(a) + Pause300 + InsertPauses(b)
  {
    TagsHaveNoPunctuation();
    ReplaceAroundBarrier(a, "?", b, "!", Pause300);
    var x1, y1 := Replace(a, "!", Pause300), Replace(b, "!", Pause300);
    ReplaceCharConcat(x1 + "?", y1, '?', Pause300);
    ReplaceCharConcat(x1, "?", '?', Pause300);
    ReplaceOneChar('?', '?', Pause300);
    var x2, y2 := Replace(x1, "?", Pause300), Replace(y1, "?", Pause300);
    TagSurvivesStep(x2, Pause300, y2, "...", Pause500);
    var x3, y3 := Replace(x2, "...", Pause500), Replace(y2, "...", Pause500);
    TagSurvivesStep(x3, Pause300, y3, ".", Pause200);
    var x4, y4 := Replace(x3, ".", Pause200), Replace(y3, ".", Pause200);
    TagSurvivesStep(x4, Pause300, y4, ",", Pause150);
  }

  /** Every `,` becomes a 150 ms break; no earlier step touches it. */
  lemma CommaIsShortPause(a: string, b: string)
    ensures InsertPauses(a + "," + b) == InsertPauses(a) + Pause150 + InsertPauses(b)
  {
    ReplaceAroundBarrier(a, ",", b, "!", Pause300);
    var x1, y1 := Replace(a, "!", Pause300), Replace(b, "!", Pause300);
    ReplaceAroundBarrier(x1, ",", y1, "?", Pause300);
    var x2, y2 := Replace(x1, "?", Pause300), Replace(y1, "?", Pause300);
    ReplaceAroundBarrier(x2, ",", y2, "...", Pause500);
    var x3, y3 := Replace(x2, "...", Pause500), Replace(y2, "...", Pause500);
    ReplaceAroundBarrier(x3, ",", y3, ".", Pause200);
    var x4, y4 := Replace(x3, ".", Pause200), Replace(y3, ".", Pause200);
    ReplaceCharConcat(x4 + ",", y4, ',', Pause150);
    ReplaceCharConcat(x4, ",", ',', Pause150);
    ReplaceOneChar(',', ',', Pause150);
  }

  /** Text that does not end, or does not start, with a full stop. */
  predicate NoDotAtEnd(s: string) {
    s == [] || s[|s| - 1] != '.'
  }

  predicate NoDotAtStart(s: string) {
    s == [] || s[0] != '.'
  }

  /** Replacing a character other than a dot by a non-empty text without dots puts no dot at either end. */
  lemma ReplaceKeepsDotFreeEnds(s: string, c: char, rep: string)
    requires c != '.' && rep != [] && '.' !in rep
    ensures NoDotAtEnd(s) ==> NoDotAtEnd(Replace(s, [c], rep))
    ensures NoDotAtStart(s) ==> NoDotAtStart(Replace(s, [c], rep))
  {
    if s != [] {
      var n := |s| - 1;
      assert s == s[..n] + [s[n]];
      ReplaceCharConcat(s[..n], [s[n]], c, rep);
      ReplaceOneChar(s[n], c, rep);
      assert s == [s[0]] + s[1..];
      ReplaceCharConcat([s[0]], s[1..], c, rep);
      ReplaceOneChar(s[0], c, rep);
      assert rep[0] in rep && rep[|rep| - 1] in rep;
    }
  }

  /** A dot followed by anything but a dot starts no ellipsis. */
  lemma DotBeforeNonDot(y: string, rep: string)
    requires NoDotAtStart(y)
    ensures Replace("." + y, "...", rep) == "." + Replace(y, "...", rep)
  {
    var s := "." + y;
    if |s| >= 3 {
      assert s[1] == y[0];
      assert s[..3][1] != '.';
      assert s[1..] == y;
    } else {
      assert Replace(y, "...", rep) == y;
    }
  }

  /** A last character that is not a dot ends no ellipsis. */
  lemma NonDotEndsNoEllipsis(x': string, p: char, rep: string)
    requires p != '.'
    ensures Replace(x' + [p], "...", rep) == Replace(x', "...", rep) + [p]
  {
    assert x' + [p] == x' + [p] + [];
    ReplaceAtBarrier(x', p, [], "...", rep);
    assert Replace([], "...", rep) == [];
  }

  /** A lone dot is covered by no ellipsis, so the ellipsis step works on each side of it. */
  lemma LoneDotSurvivesEllipsis(x: string, y: string, rep: string)
    requires NoDotAtEnd(x) && NoDotAtStart(y)
    ensures Replace(x + "." + y, "...", rep) == Replace(x, "...", rep) + "." + Replace(y, "...", rep)
  {
    DotBeforeNonDot(y, rep);
    if x == [] {
      assert x + "." + y == "." + y;
      assert Replace(x, "...", rep) == [];
    } else {
      var n := |x| - 1;
      var x', p := x[..n], x[n];
      assert x == x' + [p];
      assert x + "." + y == x' + [p] + ("." + y);
      ReplaceAtBarrier(x', p, "." + y, "...", rep);
      NonDotEndsNoEllipsis(x', p, rep);
      ConcatRegroupFront(Replace(x', "...", rep) + [p], [], ".", Replace(y, "...", rep));
    }
  }

  /**
   * A full stop with no dot on either side becomes a 200 ms break. (A dot
   * next to another dot belongs to an ellipsis or to a run of dots, which
   * the ellipsis step handles first.)
   */
  lemma LoneFullStopIsPause(a: string, b: string)
    requires (a == [] || a[|a| - 1] != '.') && (b == [] || b[0] != '.')
    ensures InsertPauses(a + "." + b) == InsertPauses(a) + Pause200 + InsertPauses(b)
  {
    TagsHaveNoPunctuation();
    ReplaceAroundBarrier(a, ".", b, "!", Pause300);
    var x1, y1 := Replace(a, "!", Pause300), Replace(b, "!", Pause300);
    ReplaceKeepsDotFreeEnds(a, '!', Pause300);
    ReplaceKeepsDotFreeEnds(b, '!', Pause300);
    ReplaceAroundBarrier(x1, ".", y1, "?", Pause300);
    var x2, y2 := Replace(x1, "?", Pause300), Replace(y1, "?", Pause300);
    ReplaceKeepsDotFreeEnds(x1, '?', Pause300);
    ReplaceKeepsDotFreeEnds(y1, '?', Pause300);
    LoneDotSurvivesEllipsis(x2, y2, Pause500);
    var x3, y3 := Replace(x2, "...", Pause500), Replace(y2, "...", Pause500);
    ReplaceCharConcat(x3 + ".", y3, '.', Pause200);
    ReplaceCharConcat(x3, ".", '.', Pause200);
    ReplaceOneChar('.', '.', Pause200);
    var x4, y4 := Replace(x3, ".", Pause200), Replace(y3, ".", Pause200);
    TagSurvivesStep(x4, Pause200, y4, ",", Pause150);
  }

  // ---------------------------------------------------------------------------
  // One text-to-speech request

  /** What `synthesize_speech` is asked for: SSML input, voice selection and audio settings (MP3). */
  datatype SynthesisRequest = SynthesisRequest(
    ssml: string, languageCode: string, voiceName: string, speakingRate: real, pitch: real)

  /** The request `text_to_speech` builds for `text` in the given dialect and persona. */
  function SpeechRequest(text: string, slang: string, persona: string): SynthesisRequest {
    SynthesisRequest(CreateSsml(SpokenText(CleanText(text))), "ta-IN", ResolveVoice(slang).name,
                     FinalRate(slang, persona), FinalPitch(slang, persona))
  }

  /** The request carries well-formed, punctuation-free SSML and the resolved voice, rate and pitch. */
  lemma SpeechRequestFacts(text: string, slang: string, persona: string)
    ensures var req := SpeechRequest(text, slang, persona);
      && req.ssml == SpeakOpen + InsertPauses(SpokenText(CleanText(text))) + SpeakClose
      && NoPausePunctuation(req.ssml)
      && req.voiceName == (if slang in VoiceConfigs then VoiceConfigs[slang].name else "ta-IN-Wavenet-A")
      && 0.8464 <= req.speakingRate <= 1.2075 && -3.0 <= req.pitch <= 3.0
  {
    SsmlShape(SpokenText(CleanText(text)));
    SsmlHasNoPausePunctuation(SpokenText(CleanText(text)));
  }

  const DataUrlPrefix: string := "data:audio/mp3;base64,"

  class VoiceHandler {
    /** Whether a speech client could be built; decided once, at start-up. */
    const enabled: bool

    constructor (enabled: bool)
      ensures this.enabled == enabled
    {
      this.enabled := enabled;
    }

    /**
     * `text_to_speech`: `None` when voice is disabled or the synthesis
     * fails, otherwise the audio as a data URL.
     */
    method TextToSpeech(text: string, slang: string, persona: string,
                        synthesize: SynthesisRequest -> Option<string>)
      returns (audioUrl: Option<string>)
      ensures !enabled ==> audioUrl == None
      ensures enabled ==>
        match synthesize(SpeechRequest(text, slang, persona))
        case None => audioUrl == None
        case Some(audio) => audioUrl == Some(DataUrlPrefix + audio)
    {
      if !enabled {
        return None;
      }
      var voiceCfg := ResolveVoice(slang);
      var personaMod := ResolveModifier(persona);
      var cleanText := CleanTextForTts(text);
      if |cleanText| > MaxSpokenLength {
        cleanText := cleanText[..MaxSpokenLength] + "...";
      }
      assert cleanText == SpokenText(CleanText(text));
      var ssmlText := CreateSsml(cleanText);
      var finalRate := voiceCfg.speakingRate * personaMod.rateAdjust;
      var finalPitch := voiceCfg.pitch + personaMod.pitchAdjust;
      assert finalRate == FinalRate(slang, persona) && finalPitch == FinalPitch(slang, persona);
      var request := SynthesisRequest(ssmlText, "ta-IN", voiceCfg.name, finalRate, finalPitch);
      assert request == SpeechRequest(text, slang, persona);
      var response := synthesize(request);
      match response {
        case None =>
          audioUrl := None;
        case Some(audio) =>
          audioUrl := Some(DataUrlPrefix + audio);
      }
    }
  }
}
