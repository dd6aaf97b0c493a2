/**
 * The conversation logic of `openai_brain.py`: the slang and persona rule
 * tables, the system prompt built from them, the example opener table,
 * the message list sent to the chat-completion service and the fallback
 * reply used when that call fails.
 */
module Brain {
  import opened Wrappers
  import opened PyStr
  import Store

  // ---------------------------------------------------------------------------
  // The fixed texts and tables a brain is built with

  // The preamble of the system prompt, paragraph by paragraph.

  const Introduction: string :=
    "You are \"Nanban AI\" (நண்பன் AI) — a hyper-realistic Tamil conversational companion.\n"
    + "You NEVER sound like a robot, assistant, or system.\n"
    + "You ALWAYS sound like a real Tamil friend from a real town, with emotion, rhythm, and cultural awareness."

  const Goal: string :=
    "Your goal:\n"
    + "\"இது AI இல்ல… நம்ம ஊரு நண்பன்.\""

  const IdentityRules: string :=
    "ABSOLUTE IDENTITY RULES (NON-NEGOTIABLE):\n"
    + "- NEVER say you are an AI, bot, model, assistant, or software.\n"
    + "- NEVER mention OpenAI, ChatGPT, training data, database, API, system, or sources.\n"
    + "- NEVER include links, citations, or \"according to reports\".\n"
    + "- You exist only as a friendly Tamil nanban."

  const LanguageRules: string :=
    "CORE LANGUAGE RULES:\n"
    + "- NEVER use formal Tamil (Senthamizh) unless CHARACTER = VILAKKAMAANA.\n"
    + "- Use spoken Tamil with natural Tanglish (bus, office, scene-u, tension).\n"
    + "- Keep speech human, casual, and local.\n"
    + "- Emojis are optional and minimal."

  const StyleRules: string :=
    "RESPONSE STYLE RULES:\n"
    + "- Crispy First Line: Start every reply with a 2–4 word local opener.\n"
    + "- No Long Walls: Avoid big paragraphs. Break ideas naturally. Mobile-friendly replies.\n"
    + "- Emotion First: Match the user's emotional state."

  const SafetyRules: string :=
    "CONTENT SAFETY (FRIENDLY):\n"
    + "Adult / unsafe requests: Politely refuse and redirect with humour.\n"
    + "Example: \"மச்சி, இது நமக்கு செட் ஆகாது 😄 ஒரு மொக்க ஜோக் வேணுமா?\""

  const FinalPrinciple: string :=
    "FINAL PRINCIPLE:\n"
    + "You are not here to sound smart by guessing.\n"
    + "You are here to be trusted by being honest."

  const ClosingTest: string :=
    "If someone listens with eyes closed, they must feel:\n"
    + "\"இவன் bot இல்ல… நம்ம ஊரு நண்பன்.\"\n"

  /** The fixed preamble every system prompt starts with: the paragraphs above, a blank line apart. */
  const BasePrompt: string :=
    Introduction + "\n\n" + Goal + "\n\n" + IdentityRules + "\n\n" + LanguageRules + "\n\n" + StyleRules + "\n\n" + SafetyRules + "\n\n" + FinalPrinciple + "\n\n" + ClosingTest

  /** One entry of `slang_rules`. */
  datatype SlangRule = SlangRule(description: string, words: string, style: string)

  /** One entry of `persona_rules`. */
  datatype PersonaRule = PersonaRule(description: string, behavior: string, address: string)

  const SlangRules: map<string, SlangRule> := map[
    "CHENNAI" := SlangRule("Fast, bold, energetic", "Machi, Naina, Gethu, Bejaaru, Scene-u",
                           @"Casual endings like ""-ga"". Quick and punchy."),
    "KOVAI" := SlangRule("Very polite, calm", "Sami, Nange, Vange, Ponge",
                         @"Respectful ""-u"" endings. Gentle and musical."),
    "MADURAI" := SlangRule("Raw, confident, authoritative", "Anne, Annachi, Inguttu, Anguttu",
                           "Direct and bold. Strong presence."),
    "NELLAI" := SlangRule("Earthy, rhythmic", "Ele, Le, Annanachi", "Fast-paced, lively. Raw energy."),
    "EELAM" := SlangRule("Pure Jaffna / Vanni Tamil ONLY", "Ennappa, Omom, Sughama, Paghidi",
                         "NO Tamil Nadu slang allowed. Distinct Jaffna flavor."),
    "COMMON" := SlangRule("Neutral spoken Tamil", "Friendly, balanced, clear",
                          "Standard conversational Tamil everyone understands.")
  ]

  const PersonaRules: map<string, PersonaRule> := map[
    "JALIANA" := PersonaRule("Fun, energetic, casual", "Light jokes allowed. Uses emojis 😄🔥",
                             "Calls user: Machi / Thala"),
    "AMAITHIYANA" := PersonaRule("Calm, soft, respectful", "Short replies. Minimal or no emojis.",
                                 "Gentle and soothing"),
    "THELIVANA" := PersonaRule("Direct, logical, no-nonsense", "NO emojis. Clear pauses between points.",
                               "Straightforward and professional"),
    "VILAKKAMAANA" := PersonaRule("Teacher / elder brother style",
                                  "Deep explanation with LOCAL examples (Idli, Biryani, Halwa, Bus stand).",
                                  "Formal Tamil allowed ONLY here")
  ]

  /** An opener: fixed text around the user's name, or around a fallback form of address. */
  datatype Opener = Opener(lead: string, fallback: string, tail: string)

  /** The 6 x 4 table of `_get_example_opening`, keyed by (slang, persona). */
  const Openers: map<(string, string), Opener> := map[
    ("CHENNAI", "JALIANA") := Opener("வா ", "மச்சி", "! என்ன சீன் இன்னைக்கு? 😄"),
    ("CHENNAI", "AMAITHIYANA") := Opener("வாங்க ", "நண்பரே", "..."),
    ("CHENNAI", "THELIVANA") := Opener("சொல்லுங்க ", "மச்சி", ", என்ன வேணும்?"),
    ("CHENNAI", "VILAKKAMAANA") := Opener("வாருங்கள் ", "நண்பரே", ". எப்படி உதவலாம்?"),
    ("KOVAI", "JALIANA") := Opener("வாங்க சாமி ", "", "! எப்படி இருக்கீங்க? 😊"),
    ("KOVAI", "AMAITHIYANA") := Opener("வாங்க ", "சாமி", "..."),
    ("KOVAI", "THELIVANA") := Opener("சொல்லுங்க ", "சாமி", "."),
    ("KOVAI", "VILAKKAMAANA") := Opener("வாருங்கள் ", "நண்பரே", ". எப்படி உதவலாம்?"),
    ("MADURAI", "JALIANA") := Opener("வா ", "அண்ணே", "! என்ன விஷயம்? 🔥"),
    ("MADURAI", "AMAITHIYANA") := Opener("சொல்லு ", "அண்ணே", "..."),
    ("MADURAI", "THELIVANA") := Opener("என்ன ", "அண்ணே", "?"),
    ("MADURAI", "VILAKKAMAANA") := Opener("வாருங்கள் ", "நண்பரே", "."),
    ("NELLAI", "JALIANA") := Opener("ஏலே ", "மச்சி", "! என்ன விஷயம்டா? 😄"),
    ("NELLAI", "AMAITHIYANA") := Opener("சொல்லு ", "லே", "..."),
    ("NELLAI", "THELIVANA") := Opener("என்னடா ", "லே", "?"),
    ("NELLAI", "VILAKKAMAANA") := Opener("வாருங்கள் ", "நண்பரே", "."),
    ("EELAM", "JALIANA") := Opener("என்னப்பா ", "", "! சுகமா? 😊"),
    ("EELAM", "AMAITHIYANA") := Opener("சொல்லுங்கோ ", "அப்பா", "..."),
    ("EELAM", "THELIVANA") := Opener("சொல்லுங்கோ ", "அப்பா", "."),
    ("EELAM", "VILAKKAMAANA") := Opener("வாருங்கோ ", "நண்பரே", "."),
    ("COMMON", "JALIANA") := Opener("ஹாய் ", "நண்பா", "! எப்படி இருக்கீங்க? 😊"),
    ("COMMON", "AMAITHIYANA") := Opener("வாங்க ", "நண்பரே", "..."),
    ("COMMON", "THELIVANA") := Opener("சொல்லுங்க ", "நண்பா", "."),
    ("COMMON", "VILAKKAMAANA") := Opener("வாருங்கள் ", "நண்பரே", ".")
  ]

  /** The greeting used for any pair the table does not hold. */
  const DefaultOpener: Opener := Opener("வணக்கம் ", "நண்பரே", "!")

  /** The opener with `name` filled in; an empty name is falsy, so the fallback is used. */
  function Fill(o: Opener, name: string): (line: string)
    ensures name != "" ==> Contains(line, name)
    ensures name == "" ==> Contains(line, o.fallback)
  {
    var who := if name != "" then name else o.fallback;
    OccursInConcat(o.lead, who, o.tail);
    OccursAtContains(o.lead + who + o.tail, who, |o.lead|);
    o.lead + who + o.tail
  }

  /** Every key of the opener table pairs a known slang id with a known persona id. */
  lemma OpenerSlangsKnown()
    ensures forall key | key in Openers :: key.0 in SlangRules
  {
  }

  lemma OpenerPersonasKnown()
    ensures forall key | key in Openers :: key.1 in PersonaRules
  {
  }

  /**
   * The opener table's keys are exactly the pairs of a known slang id and a
   * known persona id: all 24 pairs, and no other.
   */
  lemma OpenerKeysComplete()
    ensures forall s, p | s in SlangRules && p in PersonaRules :: (s, p) in Openers
    ensures forall key | key in Openers :: key.0 in SlangRules && key.1 in PersonaRules
  {
    OpenerKeysCover();
    OpenerSlangsKnown();
    OpenerPersonasKnown();
  }

  /** Every pair of a known slang id and a known persona id has an opener. */
  lemma OpenerKeysCover()
    ensures forall s, p | s in SlangRules && p in PersonaRules :: (s, p) in Openers
  {
    forall s, p | s in SlangRules && p in PersonaRules
      ensures (s, p) in Openers
    {
      if p == "JALIANA" {
        assert (s, "JALIANA") in Openers;
      } else if p == "AMAITHIYANA" {
        assert (s, "AMAITHIYANA") in Openers;
      } else if p == "THELIVANA" {
        assert (s, "THELIVANA") in Openers;
      } else {
        assert (s, "VILAKKAMAANA") in Openers;
      }
    }
  }

  // ---------------------------------------------------------------------------
  // Texts built from pieces

  /** The text of an f-string: its pieces, one after another. */
  function Concat(blocks: seq<string>): string {
    if blocks == [] then "" else blocks[0] + Concat(blocks[1..])
  }

  /** Where block `k` starts in `Concat(blocks)`. */
  function Offset(blocks: seq<string>, k: nat): nat
    requires k <= |blocks|
  {
    |Concat(blocks[..k])|
  }

  /** A text built from blocks splits around any one of them. */
  lemma {:induction false} ConcatAround(blocks: seq<string>, k: nat)
    requires k < |blocks|
    ensures Concat(blocks) == Concat(blocks[..k]) + blocks[k] + Concat(blocks[k + 1..])
  {
    if k == 0 {
      assert blocks[..0] == [];
    } else {
      var rest := blocks[1..];
      ConcatAround(rest, k - 1);
      assert rest[..k - 1] == blocks[1..k] && rest[k - 1] == blocks[k] && rest[k..] == blocks[k + 1..];
      assert blocks[..k][0] == blocks[0] && blocks[..k][1..] == blocks[1..k];
    }
  }

  /** Block `k` occurs at its offset. */
  lemma BlockOccurs(blocks: seq<string>, k: nat)
    requires k < |blocks|
    ensures OccursAt(Concat(blocks), blocks[k], Offset(blocks, k))
  {
    ConcatAround(blocks, k);
    OccursInConcat(Concat(blocks[..k]), blocks[k], Concat(blocks[k + 1..]));
  }

  /** A block that is not empty starts before every later block. */
  lemma BlockBefore(blocks: seq<string>, j: nat, k: nat)
    requires j < k <= |blocks| && blocks[j] != ""
    ensures Offset(blocks, j) < Offset(blocks, k)
  {
    var front := blocks[..k];
    ConcatAround(front, j);
    assert front[..j] == blocks[..j] && front[j] == blocks[j];
  }

  /** The next block starts where a block ends. */
  lemma BlockAfter(blocks: seq<string>, k: nat)
    requires k + 1 < |blocks|
    ensures Offset(blocks, k + 1) == Offset(blocks, k) + |blocks[k]|
  {
    var front := blocks[..k + 1];
    ConcatAround(front, k);
    assert front[..k] == blocks[..k] && front[k] == blocks[k] && front[k + 1..] == [];
  }

  /** The last block ends the text. */
  lemma LastBlockEnds(blocks: seq<string>)
    requires |blocks| > 0
    ensures Offset(blocks, |blocks| - 1) + |blocks[|blocks| - 1]| == |Concat(blocks)|
  {
    var last := |blocks| - 1;
    ConcatAround(blocks, last);
    assert blocks[last + 1..] == [];
  }

  /** Two pieces found back to back form one run of text. */
  lemma AdjacentBlocks(s: string, t: string, u: string, i: nat, j: nat)
    requires OccursAt(s, t, i) && OccursAt(s, u, j) && j == i + |t|
    ensures OccursAt(s, t + u, i)
  {
    assert s[i..][..|t|] == t;
    assert s[i..][|t|..] == s[j..];
    assert s[i..] == s[i..][..|t|] + s[i..][|t|..];
  }

  /** Text found at offset `i` can be split there: both parts are contained in `s`. */
  lemma SplitAt(s: string, i: nat, t: string, u: string)
    requires OccursAt(s, t + u, i)
    ensures Contains(s, t) && Contains(s, u)
  {
    assert s[i..][..|t|] == t;
    assert s[i + |t|..] == s[i..][|t|..];
    assert (t + u)[|t|..] == u;
    OccursAtContains(s, t, i);
    OccursAtContains(s, u, i + |t|);
  }

  // ---------------------------------------------------------------------------
  // The pieces of the system prompt

  const ConfigHeader: string := "\n\nCURRENT CONFIGURATION:\n======================\n\n"

  /** The SLANG header line, with the id as given. */
  function SlangHeader(slang: string): (line: string)
    ensures line != ""
  {
    "SLANG: " + slang + "\n"
  }

  /** The resolved slang rule's three lines. */
  function SlangDetails(rule: SlangRule): (lines: string)
    ensures lines != ""
  {
    "- Description: " + rule.description + "\n- Key words to use: " + rule.words
    + "\n- Speaking style: " + rule.style + "\n\n"
  }

  /** The CHARACTER header line, with the id as given. */
  function CharacterHeader(persona: string): (line: string)
    ensures line != ""
  {
    "CHARACTER: " + persona + "\n"
  }

  /** The resolved persona rule's three lines. */
  function CharacterDetails(rule: PersonaRule): (lines: string)
    ensures lines != ""
  {
    "- Description: " + rule.description + "\n- Behavior: " + rule.behavior
    + "\n- How to address user: " + rule.address + "\n\n"
  }

  /** The USER'S NAME line: the name, or a placeholder when it is empty. */
  function NameHeader(userName: string): (line: string)
    ensures line != ""
  {
    "USER'S NAME: " + (if userName != "" then userName else "Not provided yet") + "\n"
  }

  /** The line after it: use the name, or ask for it. */
  function NameInstruction(userName: string): (line: string)
    ensures line != ""
  {
    if userName != "" then "- Remember and use '" + userName + "' naturally in conversation"
    else "- Ask for their name naturally in conversation"
  }

  /** The CRITICAL RULES block, naming the ids as given and the resolved key words. */
  function RulesSection(slang: string, persona: string, words: string): (lines: string)
    ensures lines != ""
  {
    "\n\nCRITICAL RULES FOR THIS CONVERSATION:\n- Speak ONLY in " + slang + " slang style\n- Be EXACTLY "
    + persona + " in personality\n- Use " + words + " naturally\n- NEVER mix other slang words\n"
    + "- Stay in character 100% of the time\n\n"
  }

  /** The closing block with the example opener. */
  function OpenerSection(opener: string): (lines: string)
    ensures lines != ""
  {
    "Example opening based on current config:\n" + opener + "\n"
  }

  /** Wherever the name lines occur, a given name is shown and used; an empty one is asked for. */
  lemma NameLines(s: string, userName: string, i: nat)
    requires OccursAt(s, NameHeader(userName) + NameInstruction(userName), i)
    ensures userName != "" ==>
      Contains(s, "USER'S NAME: " + userName + "\n")
      && Contains(s, "- Remember and use '" + userName + "' naturally in conversation")
    ensures userName == "" ==>
      Contains(s, "USER'S NAME: Not provided yet\n")
      && Contains(s, "- Ask for their name naturally in conversation")
  {
    var header, instruction := NameHeader(userName), NameInstruction(userName);
    if userName != "" {
      assert header == "USER'S NAME: " + userName + "\n";
      assert instruction == "- Remember and use '" + userName + "' naturally in conversation";
    } else {
      assert header == "USER'S NAME: Not provided yet\n";
      assert instruction == "- Ask for their name naturally in conversation";
    }
    SplitAt(s, i, header, instruction);
  }

  /**
   * The f-string of `build_system_prompt` as its pieces, in their fixed
   * order: preamble (0), configuration header (1), slang header and rule
   * (2, 3), character header and rule (4, 5), name line and instruction
   * (6, 7), critical rules (8), example opener (9).
   */
  function PromptBlocks(base: string, slang: string, persona: string, userName: string,
                        slangRule: SlangRule, personaRule: PersonaRule, opener: string): (blocks: seq<string>)
    ensures |blocks| == 10
    ensures forall k | 1 <= k < 10 :: blocks[k] != ""
  {
    assert |ConfigHeader| > 0;
    [base, ConfigHeader, SlangHeader(slang), SlangDetails(slangRule),
     CharacterHeader(persona), CharacterDetails(personaRule),
     NameHeader(userName), NameInstruction(userName),
     RulesSection(slang, persona, slangRule.words), OpenerSection(opener)]
  }

  /**
   * A text of ten blocks, the last nine not empty, starts with block 0;
   * blocks 2-3, 4-5, 6-7, 8 and 9 follow at increasing offsets, and block
   * 9 ends the text.
   */
  lemma BlocksInOrder(blocks: seq<string>) returns (iSlang: nat, iChar: nat, iName: nat, iRules: nat, iOpener: nat)
    requires |blocks| == 10 && forall k | 1 <= k < 10 :: blocks[k] != ""
    ensures var text := Concat(blocks);
      && blocks[0] <= text
      && |blocks[0]| < iSlang < iChar < iName < iRules < iOpener < |text|
      && OccursAt(text, blocks[2] + blocks[3], iSlang)
      && OccursAt(text, blocks[4] + blocks[5], iChar)
      && OccursAt(text, blocks[6] + blocks[7], iName)
      && OccursAt(text, blocks[8], iRules)
      && OccursAt(text, blocks[9], iOpener)
      && iOpener + |blocks[9]| == |text|
  {
    var text := Concat(blocks);
    iSlang, iChar, iName := Offset(blocks, 2), Offset(blocks, 4), Offset(blocks, 6);
    iRules, iOpener := Offset(blocks, 8), Offset(blocks, 9);
    BlockOccurs(blocks, 0);
    assert blocks[..0] == [];
    assert blocks[..1] == [blocks[0]] && blocks[..1][1..] == [];
    assert Offset(blocks, 1) == |blocks[0]|;
    BlockBefore(blocks, 1, 2);
    BlockBefore(blocks, 2, 4);
    BlockBefore(blocks, 4, 6);
    BlockBefore(blocks, 6, 8);
    BlockBefore(blocks, 8, 9);
    BlockOccurs(blocks, 2);
    BlockOccurs(blocks, 3);
    BlockOccurs(blocks, 4);
    BlockOccurs(blocks, 5);
    BlockOccurs(blocks, 6);
    BlockOccurs(blocks, 7);
    BlockOccurs(blocks, 8);
    BlockOccurs(blocks, 9);
    BlockAfter(blocks, 2);
    BlockAfter(blocks, 4);
    BlockAfter(blocks, 6);
    AdjacentBlocks(text, blocks[2], blocks[3], iSlang, Offset(blocks, 3));
    AdjacentBlocks(text, blocks[4], blocks[5], iChar, Offset(blocks, 5));
    AdjacentBlocks(text, blocks[6], blocks[7], iName, Offset(blocks, 7));
    LastBlockEnds(blocks);
  }

  /**
   * The template filled with any preamble, ids, name, rules and opener:
   * the preamble first, then the slang, character, name, rules and opener
   * blocks at increasing offsets, the opener ending the text.
   */
  lemma TemplateInOrder(base: string, slang: string, persona: string, userName: string,
                        slangRule: SlangRule, personaRule: PersonaRule, opener: string)
    returns (iSlang: nat, iChar: nat, iName: nat, iRules: nat, iOpener: nat)
    ensures var prompt := Concat(PromptBlocks(base, slang, persona, userName, slangRule, personaRule, opener));
      && base <= prompt
      && |base| < iSlang < iChar < iName < iRules < iOpener < |prompt|
      && OccursAt(prompt, SlangHeader(slang) + SlangDetails(slangRule), iSlang)
      && OccursAt(prompt, CharacterHeader(persona) + CharacterDetails(personaRule), iChar)
      && OccursAt(prompt, NameHeader(userName) + NameInstruction(userName), iName)
      && OccursAt(prompt, RulesSection(slang, persona, slangRule.words), iRules)
      && OccursAt(prompt, OpenerSection(opener), iOpener)
      && iOpener + |OpenerSection(opener)| == |prompt|
  {
    var blocks := PromptBlocks(base, slang, persona, userName, slangRule, personaRule, opener);
    iSlang, iChar, iName, iRules, iOpener := BlocksInOrder(blocks);
  }

  // ---------------------------------------------------------------------------
  // The chat request

  /** One `{"role": ..., "content": ...}` message of the request. */
  datatype Message = Message(role: string, content: string)

  /** What `chat.completions.create` is called with; sampling settings are not modelled. */
  datatype ChatRequest = ChatRequest(model: string, messages: seq<Message>, maxTokens: nat)

  const MaxTokens: nat := 500
  const HistoryWindow: nat := 10

  /** `conversation_history[-10:]`: the last ten entries, or all of them when there are fewer. */
  function Window(history: seq<Store.HistoryEntry>): (window: seq<Store.HistoryEntry>)
    ensures |window| == (if |history| <= HistoryWindow then |history| else HistoryWindow)
    ensures window == history[|history| - |window|..]
  {
    Store.LastN(history, HistoryWindow)
  }

  /** The messages of history entries: role and content kept, timestamps dropped. */
  function AsMessages(entries: seq<Store.HistoryEntry>): (messages: seq<Message>)
    ensures |messages| == |entries|
    ensures forall k | 0 <= k < |entries| :: messages[k] == Message(entries[k].role, entries[k].content)
  {
    seq(|entries|, k requires 0 <= k < |entries| => Message(entries[k].role, entries[k].content))
  }

  lemma AsMessagesExtend(entries: seq<Store.HistoryEntry>, i: nat)
    requires i < |entries|
    ensures AsMessages(entries[..i + 1]) == AsMessages(entries[..i]) + [Message(entries[i].role, entries[i].content)]
  {
  }

  /**
   * The history part of the message list: the window's messages when a
   * non-empty history is given, nothing otherwise. These are the latest
   * entries, at most ten, in their order.
   */
  function HistoryMessages(history: Option<seq<Store.HistoryEntry>>): (middle: seq<Message>)
    ensures history.None? ==> middle == []
    ensures history.Some? ==>
      var h := history.value;
      && |middle| == (if |h| <= HistoryWindow then |h| else HistoryWindow)
      && forall k | 0 <= k < |middle| ::
           middle[k] == Message(h[|h| - |middle| + k].role, h[|h| - |middle| + k].content)
  {
    if history.Some? && history.value != [] then AsMessages(Window(history.value)) else []
  }

  /** The request's message list: the system prompt, the history messages, the user's message. */
  function RequestMessages(system: string, history: Option<seq<Store.HistoryEntry>>, userMessage: string)
    : (messages: seq<Message>)
    ensures |messages| == |HistoryMessages(history)| + 2
    ensures messages[0] == Message("system", system)
    ensures messages[|messages| - 1] == Message("user", userMessage)
    ensures messages[1..|messages| - 1] == HistoryMessages(history)
  {
    [Message("system", system)] + HistoryMessages(history) + [Message("user", userMessage)]
  }

  /** The loop of `chat` that assembles the message list, one history entry at a time. */
  method BuildMessages(system: string, history: Option<seq<Store.HistoryEntry>>, userMessage: string)
    returns (messages: seq<Message>)
    ensures messages == RequestMessages(system, history, userMessage)
  {
    messages := [Message("system", system)];
    if history.Some? && history.value != [] {
      var window := Window(history.value);
      for i := 0 to |window|
        invariant messages == [Message("system", system)] + AsMessages(window[..i])
      {
        AsMessagesExtend(window, i);
        messages := messages + [Message(window[i].role, window[i].content)];
      }
      assert window[..|window|] == window;
    }
    messages := messages + [Message("user", userMessage)];
  }

  /**
   * At most twelve messages, exactly two without history; the system
   * message first, the user's last, and between them the latest history
   * entries, at most ten, in their order.
   */
  lemma RequestMessagesShape(system: string, history: Option<seq<Store.HistoryEntry>>, userMessage: string)
    ensures var messages := RequestMessages(system, history, userMessage);
      && 2 <= |messages| <= 12
      && (history == None || history == Some([]) ==> |messages| == 2)
      && messages[0] == Message("system", system)
      && messages[|messages| - 1] == Message("user", userMessage)
    ensures history.Some? ==>
      var messages, h := RequestMessages(system, history, userMessage), history.value;
      var skip := |h| - (|messages| - 2);
      && |messages| - 2 == (if |h| <= 10 then |h| else 10)
      && forall k | 1 <= k < |messages| - 1 ::
           messages[k] == Message(h[skip + k - 1].role, h[skip + k - 1].content)
  {
    var messages := RequestMessages(system, history, userMessage);
    var middle := HistoryMessages(history);
    forall k | 1 <= k < |messages| - 1
      ensures messages[k] == middle[k - 1]
    {
      assert messages[1..|messages| - 1][k - 1] == messages[k];
    }
  }

  const JalianaApology: string := "மச்சி, சொரி டா... கொஞ்சம் technical issue. மறுபடியும் try பண்ணு! 😅"
  const NeutralApology: string := "மன்னிக்கவும், technical issue உள்ளது. மீண்டும் முயற்சிக்கவும்."

  /** The reply of a failed call: the playful apology when `'JALIANA' in persona`, the neutral one otherwise. */
  function FallbackReply(persona: string): (reply: string)
    ensures Contains(persona, "JALIANA") ==> reply == JalianaApology
    ensures !Contains(persona, "JALIANA") ==> reply == NeutralApology
  {
    if Contains(persona, "JALIANA") then JalianaApology else NeutralApology
  }

  /**
   * Of the four listed personas only JALIANA gets the playful apology;
   * any id containing JALIANA gets it too.
   */
  lemma FallbackForKnownPersonas(other: string)
    ensures FallbackReply("JALIANA") == JalianaApology
    ensures FallbackReply("AMAITHIYANA") == NeutralApology
    ensures FallbackReply("THELIVANA") == NeutralApology
    ensures FallbackReply("VILAKKAMAANA") == NeutralApology
    ensures FallbackReply(other + "JALIANA") == JalianaApology
  {
    OccursInConcat([], "JALIANA", []);
    OccursAtContains("JALIANA", "JALIANA", 0);
    OccursInConcat(other, "JALIANA", []);
    OccursAtContains(other + "JALIANA", "JALIANA", |other|);
    AbsentHeadNotContained("AMAITHIYANA", "JALIANA");
    AbsentHeadNotContained("THELIVANA", "JALIANA");
    AbsentHeadNotContained("VILAKKAMAANA", "JALIANA");
  }

  // ---------------------------------------------------------------------------
  // The brain

  /**
   * `NanbanBrain`: the model name, the preamble it was built with and the
   * fixed slang and persona tables.
   */
  class NanbanBrain {
    const model: string
    const baseSystemPrompt: string
    const slangRules: map<string, SlangRule> := SlangRules
    const personaRules: map<string, PersonaRule> := PersonaRules

    constructor (model: string)
      ensures this.model == model && baseSystemPrompt == BasePrompt
    {
      this.model := model;
      baseSystemPrompt := BasePrompt;
    }

    /** `slang_rules.get(slang, slang_rules['COMMON'])`. */
    function ResolveSlang(slang: string): (rule: SlangRule)
      ensures rule in slangRules.Values
      ensures slang in slangRules ==> rule == slangRules[slang]
      ensures slang !in slangRules ==> rule == slangRules["COMMON"]
    {
      if slang in slangRules then slangRules[slang] else slangRules["COMMON"]
    }

    /** `persona_rules.get(persona, persona_rules['JALIANA'])`. */
    function ResolvePersona(persona: string): (rule: PersonaRule)
      ensures rule in personaRules.Values
      ensures persona in personaRules ==> rule == personaRules[persona]
      ensures persona !in personaRules ==> rule == personaRules["JALIANA"]
    {
      if persona in personaRules then personaRules[persona] else personaRules["JALIANA"]
    }

    /** Unknown ids get the COMMON and JALIANA records. */
    lemma UnknownIdsResolveToDefaults(slang: string, persona: string)
      ensures slang !in SlangRules ==>
        ResolveSlang(slang) == SlangRule("Neutral spoken Tamil", "Friendly, balanced, clear",
                                         "Standard conversational Tamil everyone understands.")
      ensures persona !in PersonaRules ==>
        ResolvePersona(persona) == PersonaRule("Fun, energetic, casual", "Light jokes allowed. Uses emojis 😄🔥",
                                               "Calls user: Machi / Thala")
    {
    }

    /**
     * `_get_example_opening`: the table entry for a mapped pair, the default
     * greeting otherwise; a given name always appears in the line.
     */
    function ExampleOpening(slang: string, persona: string, userName: string): (line: string)
      ensures (slang, persona) in Openers ==> line == Fill(Openers[(slang, persona)], userName)
      ensures (slang, persona) !in Openers ==> line == Fill(DefaultOpener, userName)
      ensures userName != "" ==> Contains(line, userName)
    {
      Fill(if (slang, persona) in Openers then Openers[(slang, persona)] else DefaultOpener, userName)
    }

    /**
     * The opener is looked up with the ids as given: with an unknown slang or
     * persona it is the default greeting, even when the other id is known.
     */
    lemma UnknownIdsGreetDefault(slang: string, persona: string, userName: string)
      requires slang !in SlangRules || persona !in PersonaRules
      ensures ExampleOpening(slang, persona, userName)
           == "வணக்கம் " + (if userName != "" then userName else "நண்பரே") + "!"
    {
      OpenerSlangsKnown();
      OpenerPersonasKnown();
    }

    /** `build_system_prompt`: the template filled with the resolved rules and the example opener. */
    function BuildSystemPrompt(slang: string, persona: string, userName: string): string
    {
      Concat(PromptBlocks(baseSystemPrompt, slang, persona, userName, ResolveSlang(slang),
                          ResolvePersona(persona), ExampleOpening(slang, persona, userName)))
    }

    /**
     * The system prompt starts with the preamble; the slang, character,
     * name, rules and opener blocks follow in this order, the opener ending
     * the text.
     */
    lemma PromptSectionsInOrder(slang: string, persona: string, userName: string)
      returns (prompt: string, iSlang: nat, iChar: nat, iName: nat, iRules: nat, iOpener: nat)
      ensures prompt == BuildSystemPrompt(slang, persona, userName)
      ensures
        && baseSystemPrompt <= prompt
        && |baseSystemPrompt| < iSlang < iChar < iName < iRules < iOpener < |prompt|
        && OccursAt(prompt, SlangHeader(slang) + SlangDetails(ResolveSlang(slang)), iSlang)
        && OccursAt(prompt, CharacterHeader(persona) + CharacterDetails(ResolvePersona(persona)), iChar)
        && OccursAt(prompt, NameHeader(userName) + NameInstruction(userName), iName)
        && OccursAt(prompt, RulesSection(slang, persona, ResolveSlang(slang).words), iRules)
        && OccursAt(prompt, OpenerSection(ExampleOpening(slang, persona, userName)), iOpener)
        && iOpener + |OpenerSection(ExampleOpening(slang, persona, userName))| == |prompt|
    {
      prompt := BuildSystemPrompt(slang, persona, userName);
      iSlang, iChar, iName, iRules, iOpener := TemplateInOrder(baseSystemPrompt, slang, persona, userName,
        ResolveSlang(slang), ResolvePersona(persona), ExampleOpening(slang, persona, userName));
    }

    /** The name lines: a given name is shown and used; an empty one is asked for. */
    lemma NameClause(slang: string, persona: string, userName: string)
      ensures userName != "" ==>
        && Contains(BuildSystemPrompt(slang, persona, userName), "USER'S NAME: " + userName + "\n")
        && Contains(BuildSystemPrompt(slang, persona, userName),
                    "- Remember and use '" + userName + "' naturally in conversation")
      ensures userName == "" ==>
        && Contains(BuildSystemPrompt(slang, persona, userName), "USER'S NAME: Not provided yet\n")
        && Contains(BuildSystemPrompt(slang, persona, userName), "- Ask for their name naturally in conversation")
    {
      var prompt, _, _, iName, _, _ := PromptSectionsInOrder(slang, persona, userName);
      NameLines(prompt, userName, iName);
    }

    /**
     * The header lines name the ids as given, even when they are unknown and
     * the rules shown are those of COMMON and JALIANA.
     */
    lemma HeadersShowRawIds(slang: string, persona: string, userName: string)
      ensures var prompt := BuildSystemPrompt(slang, persona, userName);
        Contains(prompt, "SLANG: " + slang + "\n") && Contains(prompt, "CHARACTER: " + persona + "\n")
    {
      var prompt := BuildSystemPrompt(slang, persona, userName);
      var _, iSlang, iChar, _, _, _ := PromptSectionsInOrder(slang, persona, userName);
      SplitAt(prompt, iSlang, SlangHeader(slang), SlangDetails(ResolveSlang(slang)));
      SplitAt(prompt, iChar, CharacterHeader(persona), CharacterDetails(ResolvePersona(persona)));
    }

    /**
     * `chat`: sends the system prompt, the history window and the user's
     * message; returns the reply, or the persona's apology when the call fails.
     */
    method Chat(userMessage: string, slang: string, persona: string, userName: string,
                history: Option<seq<Store.HistoryEntry>>, complete: ChatRequest -> Option<string>)
      returns (reply: string)
      ensures var request := ChatRequest(model, RequestMessages(BuildSystemPrompt(slang, persona, userName),
                                                                history, userMessage), MaxTokens);
        match complete(request)
        case Some(content) => reply == content
        case None => reply == FallbackReply(persona)
    {
      var systemPrompt := BuildSystemPrompt(slang, persona, userName);
      var messages := BuildMessages(systemPrompt, history, userMessage);
      var response := complete(ChatRequest(model, messages, MaxTokens));
      match response {
        case Some(content) =>
          reply := content;
        case None =>
          reply := FallbackReply(persona);
      }
    }
  }
}
