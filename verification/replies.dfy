/**
 * The pure decisions of one reply: the fallback policy applied to the text
 * generator's result, and the strings built by `send_reply`.
 */
module Replies {
  import opened Wrappers
  import opened Personas

  /** The body chosen for a reply and whether the fallback message was used. */
  datatype Draft = Draft(body: string, usedFallback: bool)

  /** The generator result counts as a failure when it is `None` or empty (`not ai_reply`). */
  predicate GeneratorFailed(generated: Option<string>)
  {
    generated == None || generated == Some("")
  }

  /** Fallback policy: the configured fallback message replaces a failed generation. */
  function ChooseBody(generated: Option<string>, fallback: string): (d: Draft)
    ensures d.usedFallback <==> GeneratorFailed(generated)
    ensures d.usedFallback ==> d.body == fallback
    ensures !d.usedFallback ==> generated == Some(d.body) && d.body != ""
  {
    if generated.None? || generated.value == "" then Draft(fallback, true)
    else Draft(generated.value, false)
  }

  /** The subject the loop passes to `send_reply`. */
  const OriginalSubject: string := "Automated Reply"

  const SubjectPrefix: string := "Re: "
  const SubjectSuffix: string := " - OOO Automated Reply"

  /** `f"Re: {subject} - OOO Automated Reply"` */
  function ReplySubject(subject: string): string
  {
    SubjectPrefix + subject + SubjectSuffix
  }

  /** The signature line appended to every body: `"\n\n-" + name + "."`. */
  function Signature(p: Persona): string
  {
    "\n\n-" + SignatureName(p) + "."
  }

  /** `f"{message_body}\n\n-{character.get('name', 'Automated System')}."` */
  function SignedBody(body: string, p: Persona): string
  {
    body + Signature(p)
  }

  /** Recovers the body from a signed message, or `None` when the signature is not there. */
  function Unsign(message: string, p: Persona): (body: Option<string>)
    ensures body.Some? ==> SignedBody(body.value, p) == message
  {
    var sig := Signature(p);
    if |sig| <= |message| && message[|message| - |sig|..] == sig then
      assert message == message[..|message| - |sig|] + sig;
      Some(message[..|message| - |sig|])
    else None
  }

  /** Recovers the original subject from a reply subject, or `None` when it is not one. */
  function SubjectOf(subject: string): (original: Option<string>)
    ensures original.Some? ==> ReplySubject(original.value) == subject
  {
    var n := |SubjectPrefix|;
    var m := |SubjectSuffix|;
    if n + m <= |subject| && subject[..n] == SubjectPrefix && subject[|subject| - m..] == SubjectSuffix then
      assert subject == subject[..n] + subject[n..|subject| - m] + subject[|subject| - m..];
      Some(subject[n..|subject| - m])
    else None
  }

  /** Signing keeps the whole body: it is recovered exactly. */
  lemma SignedBodyRoundTrip(body: string, p: Persona)
    ensures Unsign(SignedBody(body, p), p) == Some(body)
  {
    var m := SignedBody(body, p);
    var sig := Signature(p);
    assert m[..|body|] == body;
    assert m[|m| - |sig|..] == sig;
  }

  /** The reply subject keeps the original subject: it is recovered exactly. */
  lemma ReplySubjectRoundTrip(subject: string)
    ensures SubjectOf(ReplySubject(subject)) == Some(subject)
  {
    var s := ReplySubject(subject);
    assert s[..|SubjectPrefix|] == SubjectPrefix;
    assert s[|s| - |SubjectSuffix|..] == SubjectSuffix;
    assert s[|SubjectPrefix|..|s| - |SubjectSuffix|] == subject;
  }

  /** Two different bodies never produce the same signed message. */
  lemma SignedBodyInjective(b1: string, b2: string, p: Persona)
    requires SignedBody(b1, p) == SignedBody(b2, p)
    ensures b1 == b2
  {
    SignedBodyRoundTrip(b1, p);
    SignedBodyRoundTrip(b2, p);
  }
}
