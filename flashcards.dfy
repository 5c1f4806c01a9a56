/** The two handlers of the flashcard bot with the chat transport removed:
    presenting a random phrasal verb (which records its particle details in
    the user's session) and rendering the answer from that session. */
module Flashcards {
  import opened Text

  /** One particle combination of a phrasal verb, as the data store gives it. */
  datatype ParticleDetail = ParticleDetail(
    particle: string,
    verb: string,        // the full phrasal verb, e.g. "give up"
    translation: string,
    example: string)

  /** One base verb with all its particle combinations (`phr_verbs`). */
  datatype PhrasalVerbRecord = PhrasalVerbRecord(verb: string, phrVerbs: seq<ParticleDetail>)

  /** What the flashcard handler replies with. */
  datatype FlashReply =
    | NoVerbs(text: string)
    | Card(chosen: PhrasalVerbRecord, text: string)

  /** The session key under which the chosen record's details are kept. */
  const ParticlesKey: string := "particles"

  /** The reply when the data store holds no phrasal verbs. */
  const NoVerbsMessage: string := "Нет фразовых глаголов в базе данных."

  // ---------------------------------------------------------------------
  // The flashcard prompt

  /** The particle names of the details, in order. */
  function ParticleNames(details: seq<ParticleDetail>): seq<string> {
    seq(|details|, i requires 0 <= i < |details| => details[i].particle)
  }

  /** The HTML prompt: the verb and the comma-separated particle names. */
  function Prompt(record: PhrasalVerbRecord): string {
    "<b>Фразовый глагол:</b> " + record.verb + "\n"
    + "<b>Применимые частицы:</b> " + Join(", ", ParticleNames(record.phrVerbs)) + "\n"
  }

  /** A record without particles gets an empty particle list, not an error. */
  lemma PromptWithoutParticles(record: PhrasalVerbRecord)
    requires record.phrVerbs == []
    ensures Prompt(record) == "<b>Фразовый глагол:</b> " + record.verb + "\n<b>Применимые частицы:</b> \n"
  {
  }

  /** The prompt names every particle of the record. */
  lemma PromptNamesEachParticle(record: PhrasalVerbRecord, i: nat)
    requires i < |record.phrVerbs|
    ensures Contains(Prompt(record), record.phrVerbs[i].particle)
  {
    var names := ParticleNames(record.phrVerbs);
    JoinContainsPart(", ", names, i);
    var k :| OccursAt(Join(", ", names), names[i], k);
    var head := "<b>Фразовый глагол:</b> " + record.verb + "\n" + "<b>Применимые частицы:</b> ";
    var p := Prompt(record);
    assert p == head + Join(", ", names) + "\n";
    assert p[|head| + k..|head| + k + |names[i]|] == Join(", ", names)[k..k + |names[i]|];
    assert OccursAt(p, names[i], |head| + k);
  }

  /** The particle names come in the record's order: the list in the prompt
      breaks at the separator before name `i` into the names before `i` and
      the names from `i` on. */
  lemma PromptParticlesInOrder(record: PhrasalVerbRecord, i: nat)
    requires 0 < i < |record.phrVerbs|
    ensures Prompt(record) ==
      "<b>Фразовый глагол:</b> " + record.verb + "\n" + "<b>Применимые частицы:</b> "
      + Join(", ", ParticleNames(record.phrVerbs[..i])) + ", "
      + Join(", ", ParticleNames(record.phrVerbs[i..])) + "\n"
  {
    var names := ParticleNames(record.phrVerbs);
    JoinSplitAt(", ", names, i);
    assert names[..i] == ParticleNames(record.phrVerbs[..i]);
    assert names[i..] == ParticleNames(record.phrVerbs[i..]);
  }

  // ---------------------------------------------------------------------
  // The answer

  /** `<b>v</b>`. */
  function Bold(v: string): string {
    "<b>" + v + "</b>"
  }

  /** The example sentence with every non-overlapping occurrence of the
      detail's verb, leftmost first, in bold. */
  function RenderedExample(detail: ParticleDetail): string {
    ReplaceAll(detail.example, detail.verb, Bold(detail.verb))
  }

  /** The answer block for one detail. */
  function Block(detail: ParticleDetail): string {
    Bold(detail.verb) + " - " + detail.translation + "\n\n" + RenderedExample(detail) + "\n\n"
  }

  /** The whole answer: the blocks of the details, concatenated in order. */
  function Answer(details: seq<ParticleDetail>): string {
    if details == [] then "" else Block(details[0]) + Answer(details[1..])
  }

  /** An example without the verb is shown unchanged. */
  lemma ExampleWithoutVerbUnchanged(detail: ParticleDetail)
    requires !Contains(detail.example, detail.verb)
    ensures RenderedExample(detail) == detail.example
  {
    ReplaceAbsent(detail.example, detail.verb, Bold(detail.verb));
  }

  /** Each emphasised occurrence adds the seven characters of `<b>` and `</b>`. */
  lemma RenderedExampleLength(detail: ParticleDetail)
    ensures |RenderedExample(detail)| == |detail.example| + 7 * Count(detail.example, detail.verb)
  {
    var b := Bold(detail.verb);
    assert |b| - |detail.verb| == 7;
    ReplaceLength(detail.example, detail.verb, b);
  }

  /** Emphasising is reversible and leaves nothing between the emphasised
      occurrences: the example is its pieces between verb occurrences glued
      with the verb, the rendered example is the same pieces glued with the
      bold verb, and no piece still holds the verb. */
  lemma RenderedExampleIsJoin(detail: ParticleDetail)
    requires detail.verb != []
    ensures RenderedExample(detail) == Join(Bold(detail.verb), Split(detail.example, detail.verb))
    ensures detail.example == Join(detail.verb, Split(detail.example, detail.verb))
    ensures forall k :: 0 <= k < |Split(detail.example, detail.verb)| ==>
      !Contains(Split(detail.example, detail.verb)[k], detail.verb)
  {
    ReplaceIsJoinOfSplit(detail.example, detail.verb, Bold(detail.verb));
    JoinSplitRoundTrip(detail.example, detail.verb);
    SplitPiecesFree(detail.example, detail.verb);
  }

  /** The answer for two lists is the answer for the first then the second. */
  lemma {:induction false} AnswerAppend(a: seq<ParticleDetail>, b: seq<ParticleDetail>)
    ensures Answer(a + b) == Answer(a) + Answer(b)
    decreases |a|
  {
    if a == [] {
      assert a + b == b;
    } else {
      AnswerAppend(a[1..], b);
      assert (a + b)[1..] == a[1..] + b;
    }
  }

  /** The answer is empty exactly when there are no details. */
  lemma AnswerEmptyIff(details: seq<ParticleDetail>)
    ensures Answer(details) == "" <==> details == []
  {
    if details != [] {
      assert Answer(details)[0] == '<';
    }
  }

  /** Detail `i` contributes exactly its own block, between the blocks of the
      details before it and those after it. */
  lemma AnswerAt(details: seq<ParticleDetail>, i: nat)
    requires i < |details|
    ensures Answer(details) == Answer(details[..i]) + Block(details[i]) + Answer(details[i + 1..])
  {
    var tail := details[i..];
    assert details == details[..i] + tail;
    AnswerAppend(details[..i], tail);
    assert tail[1..] == details[i + 1..];
    assert Answer(tail) == Block(details[i]) + Answer(details[i + 1..]);
  }

  /** The length of the answer is the sum of its blocks' lengths. */
  lemma {:induction false} AnswerLength(details: seq<ParticleDetail>)
    ensures |Answer(details)| == BlockLengths(details)
    decreases |details|
  {
    if details != [] {
      AnswerLength(details[1..]);
      RenderedExampleLength(details[0]);
    }
  }

  /** Sum of the block lengths, each counted from its fields. */
  function BlockLengths(details: seq<ParticleDetail>): nat {
    if details == [] then 0
    else
      var d := details[0];
      |d.verb| + |d.translation| + |d.example| + 7 * Count(d.example, d.verb) + 14
      + BlockLengths(details[1..])
  }

  /** An example: the one occurrence of "give up" becomes bold. */
  lemma {:induction false} GiveUpRenderedExample(detail: ParticleDetail)
    requires detail.verb == "give up" && detail.example == "Don't give up now."
    ensures RenderedExample(detail) == "Don't <b>give up</b> now."
  {
    var v := detail.verb;
    GiveUpSentence(detail.example, v, Bold(v));
    ReplaceSingle("Don't ", v, " now.", Bold(v));
  }

  /** Proof step for GiveUpRenderedExample: the literal sentence cut around
      its one occurrence of the verb. */
  lemma GiveUpSentence(ex: string, v: string, b: string)
    requires v == "give up" && ex == "Don't give up now." && b == Bold(v)
    ensures ex == "Don't " + v + " now."
    ensures "Don't " + b + " now." == "Don't <b>give up</b> now."
    ensures v[0] !in "Don't " && v[0] !in " now."
  {
  }

  /** An example: an occurrence that overlaps an emphasised one is not
      emphasised, as with Python's `replace` ("aa" at index 1 of "aaa"). */
  lemma {:induction false} OverlapNotEmphasised(detail: ParticleDetail)
    requires detail.verb == "aa" && detail.example == "aaa"
    ensures OccursAt(detail.example, detail.verb, 1)
    ensures RenderedExample(detail) == "<b>aa</b>a"
  {
    var v := detail.verb;
    var b := Bold(v);
    OverlapSentence(detail.example, v, b);
    ReplaceAtStart(v, "a", b);
    assert !StartsWith("a", v);
    assert ReplaceAll("a", v, b) == "a" + ReplaceAll("", v, b);
  }

  /** Proof step for OverlapNotEmphasised: the literal sentence cut after
      its leading occurrence of the verb. */
  lemma OverlapSentence(ex: string, v: string, b: string)
    requires v == "aa" && ex == "aaa" && b == Bold(v)
    ensures ex == v + "a" && ex[1..3] == v
    ensures b + "a" == "<b>aa</b>a"
  {
  }

  /** An example: the prompt for "give up" with the one particle "up". */
  lemma {:induction false} GiveUpPrompt(record: PhrasalVerbRecord)
    requires record.verb == "give up" && |record.phrVerbs| == 1 && record.phrVerbs[0].particle == "up"
    ensures Prompt(record) == "<b>Фразовый глагол:</b> give up\n<b>Применимые частицы:</b> up\n"
  {
    var names := ParticleNames(record.phrVerbs);
    assert names == [record.phrVerbs[0].particle];
    GiveUpPromptText(record.verb, Join(", ", names));
  }

  /** Proof step for GiveUpPrompt: the literal prompt assembled from its pieces. */
  lemma GiveUpPromptText(verb: string, list: string)
    requires verb == "give up" && list == "up"
    ensures "<b>Фразовый глагол:</b> " + verb + "\n" + "<b>Применимые частицы:</b> " + list + "\n"
      == "<b>Фразовый глагол:</b> give up\n<b>Применимые частицы:</b> up\n"
  {
  }

  /** An example: the answer for one "give up" detail. */
  lemma {:induction false} GiveUpAnswer(detail: ParticleDetail)
    requires detail.verb == "give up" && detail.translation == "сдаваться"
    requires detail.example == "Don't give up now."
    ensures Answer([detail]) == "<b>give up</b> - сдаваться\n\nDon't <b>give up</b> now.\n\n"
  {
    GiveUpRenderedExample(detail);
    assert Answer([detail]) == Block(detail) + Answer([]);
    GiveUpBlockText(Bold(detail.verb), detail.translation, RenderedExample(detail));
  }

  /** Proof step for GiveUpAnswer: the literal block assembled from its pieces. */
  lemma GiveUpBlockText(bold: string, translation: string, rendered: string)
    requires bold == "<b>give up</b>" && translation == "сдаваться"
    requires rendered == "Don't <b>give up</b> now."
    ensures bold + " - " + translation + "\n\n" + rendered + "\n\n"
      == "<b>give up</b> - сдаваться\n\nDon't <b>give up</b> now.\n\n"
  {
  }

  // ---------------------------------------------------------------------
  // The per-user session

  /** The bot's per-user data: a dictionary whose only key this code writes
      is `particles`. */
  class UserData {
    var entries: map<string, seq<ParticleDetail>>

    /** A user's session starts empty. */
    constructor ()
      ensures entries == map[]
    {
      entries := map[];
    }

    /** The stored details, or none when nothing has been stored. */
    function StoredParticles(): seq<ParticleDetail>
      reads this
    {
      if ParticlesKey in entries then entries[ParticlesKey] else []
    }

    /** The answer to a "show answer" press; empty, not an error, when no
        flashcard was shown or it had no particles. */
    function DisplayAnswer(): (answer: string)
      reads this
      ensures answer == "" <==> ParticlesKey !in entries || entries[ParticlesKey] == []
    {
      AnswerEmptyIff(StoredParticles());
      Answer(StoredParticles())
    }

    /** The "flash" command: picks any record, replies with its prompt and
        stores its details under `particles`, replacing what was there. */
    method ShowRandomPhrasalVerb(phrasalVerbs: seq<PhrasalVerbRecord>) returns (reply: FlashReply)
      modifies this
      ensures phrasalVerbs == [] ==> reply == NoVerbs(NoVerbsMessage) && entries == old(entries)
      ensures phrasalVerbs != [] ==>
        && reply.Card?
        && reply.chosen in phrasalVerbs
        && reply.text == Prompt(reply.chosen)
        && entries == old(entries)[ParticlesKey := reply.chosen.phrVerbs]
        && DisplayAnswer() == Answer(reply.chosen.phrVerbs)
    {
      if phrasalVerbs == [] {
        return NoVerbs(NoVerbsMessage);
      }
      var i :| 0 <= i < |phrasalVerbs|;
      var chosen := phrasalVerbs[i];
      var message := Prompt(chosen);
      entries := entries[ParticlesKey := chosen.phrVerbs];
      reply := Card(chosen, message);
    }
  }
}
