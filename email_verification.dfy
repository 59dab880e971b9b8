/**
  EmailVerificationService: six-digit codes stored per email, and the one-shot check that
  accepts only the newest code of an email, unused, within three minutes of its creation.
  Timestamps are whole seconds; the random draw and the clock are parameters.
*/
module Verification {
  import opened Wrappers
  import opened Decimal

  /** `new Random().nextInt(999999)` draws from 0 up to, but not including, this bound. */
  const CodeBound: nat := 999999
  /** How long a code stays valid, in seconds (`minusMinutes(3)`). */
  const ValidFor: int := 180

  /** A row of the verification table. */
  datatype EmailVerification = EmailVerification(email: string, code: string, createdAt: int, verified: bool)

  /** `String.format("%06d", n)` for a drawn n: six decimal digits, zero-padded, reading back as n. */
  function Code(n: nat): (c: string)
    requires n < CodeBound
    ensures |c| == 6 && AllDigits(c)
    ensures DigitsValue(c) == n
  {
    SixDigitBound();
    NatToStringLength(n, 6, Pow10(6));
    PaddedValue(n, 6);
    PadStart(NatToString(n), 6, '0')
  }

  lemma SixDigitBound()
    ensures Pow10(6) == 1000000
  {
    assert Pow10(2) == 100;
    assert Pow10(4) == 10000;
  }

  /** Different draws give different codes. */
  lemma CodeInjective(n: nat, n': nat)
    requires n < CodeBound && n' < CodeBound
    ensures Code(n) == Code(n') <==> n == n'
  {
  }

  /**
    `findTopByEmailOrderByCreatedAtDesc(email)`: the position of the email's newest record; of
    records created at the same instant the one saved last.
  */
  function Latest(rs: seq<EmailVerification>, email: string): (r: Option<nat>)
    ensures r.Some? ==> r.value < |rs| && rs[r.value].email == email
    ensures r.Some? ==> forall k :: 0 <= k < |rs| && rs[k].email == email ==> rs[k].createdAt <= rs[r.value].createdAt
    ensures r.None? <==> forall k :: 0 <= k < |rs| ==> rs[k].email != email
  {
    if rs == [] then None
    else
      var prev := Latest(rs[..|rs| - 1], email);
      var last := rs[|rs| - 1];
      if last.email == email && (prev.None? || rs[prev.value].createdAt <= last.createdAt) then Some(|rs| - 1)
      else prev
  }

  /** The newest record depends only on the emails and creation times, not on the verified flags. */
  lemma {:induction false} LatestIgnoresVerified(rs: seq<EmailVerification>, rs': seq<EmailVerification>, email: string)
    requires |rs| == |rs'|
    requires forall k :: 0 <= k < |rs| ==> rs'[k].email == rs[k].email && rs'[k].createdAt == rs[k].createdAt
    ensures Latest(rs', email) == Latest(rs, email)
  {
    if rs != [] {
      LatestIgnoresVerified(rs[..|rs| - 1], rs'[..|rs| - 1], email);
    }
  }

  /**
    What `verifyCode` answers: the email has a record, and its newest record is unused, carries
    this code and was created strictly less than three minutes before `now`.
  */
  predicate Accepted(rs: seq<EmailVerification>, email: string, code: string, now: int)
  {
    match Latest(rs, email)
    case None => false
    case Some(i) => !rs[i].verified && rs[i].code == code && rs[i].createdAt > now - ValidFor
  }

  /** Acceptance in terms of the table alone: an unused matching record that no record of the email is newer than. */
  lemma AcceptedMeaning(rs: seq<EmailVerification>, email: string, code: string, now: int)
    ensures Accepted(rs, email, code, now) ==>
              exists i :: 0 <= i < |rs| && rs[i].email == email && rs[i].code == code && !rs[i].verified &&
                          rs[i].createdAt > now - ValidFor &&
                          forall k :: 0 <= k < |rs| && rs[k].email == email ==> rs[k].createdAt <= rs[i].createdAt
    ensures (forall k :: 0 <= k < |rs| ==> rs[k].email != email) ==> !Accepted(rs, email, code, now)
  {
  }

  /** The table after `changeVerified(true)` on the email's newest record. */
  function MarkLatestVerified(rs: seq<EmailVerification>, email: string): (rs': seq<EmailVerification>)
    ensures |rs'| == |rs|
    ensures forall k :: 0 <= k < |rs| ==> rs'[k].email == rs[k].email && rs'[k].code == rs[k].code && rs'[k].createdAt == rs[k].createdAt
    ensures Latest(rs, email).Some? ==> rs'[Latest(rs, email).value].verified
    ensures forall k :: 0 <= k < |rs| && Some(k) != Latest(rs, email) ==> rs'[k] == rs[k]
  {
    match Latest(rs, email)
    case None => rs
    case Some(i) => rs[i := rs[i].(verified := true)]
  }

  /** A code is good once: after an accepted verify the same email is refused, whatever the code and the time. */
  lemma VerifyIsOneShot(rs: seq<EmailVerification>, email: string, code: string, now: int, code': string, later: int)
    requires Accepted(rs, email, code, now)
    ensures !Accepted(MarkLatestVerified(rs, email), email, code', later)
  {
    LatestIgnoresVerified(rs, MarkLatestVerified(rs, email), email);
  }

  /** With a clock that does not run backwards, a record saved now is its email's newest. */
  lemma {:induction false} SavedRecordIsLatest(rs: seq<EmailVerification>, v: EmailVerification)
    requires forall k :: 0 <= k < |rs| ==> rs[k].createdAt <= v.createdAt
    ensures Latest(rs + [v], v.email) == Some(|rs|)
  {
    var rs' := rs + [v];
    assert rs'[..|rs'| - 1] == rs;
    var prev := Latest(rs, v.email);
    assert prev.Some? ==> rs[prev.value].createdAt <= v.createdAt;
  }

  /**
    Sending a code makes it the one that counts: with a clock that does not run backwards, exactly
    the new code is accepted for the email, for the next three minutes.
  */
  lemma SendThenVerify(rs: seq<EmailVerification>, email: string, sent: string, sentAt: int, code: string, now: int)
    requires forall k :: 0 <= k < |rs| ==> rs[k].createdAt <= sentAt
    ensures Accepted(rs + [EmailVerification(email, sent, sentAt, false)], email, code, now) <==>
              code == sent && sentAt > now - ValidFor
  {
    var v := EmailVerification(email, sent, sentAt, false);
    SavedRecordIsLatest(rs, v);
    assert (rs + [v])[|rs|] == v;
  }

  class EmailVerificationService {
    /** The verification table, in save order. */
    var records: seq<EmailVerification>

    constructor ()
      ensures records == []
    {
      records := [];
    }

    /**
      `sendVerificationCode`: formats the drawn number as the code and saves a new unverified
      record created `now`. Mailing the code is not modelled.
    */
    method SendVerificationCode(email: string, draw: nat, now: int) returns (code: string)
      requires draw < CodeBound
      modifies this
      ensures code == Code(draw)
      ensures records == old(records) + [EmailVerification(email, code, now, false)]
    {
      code := Code(draw);
      records := records + [EmailVerification(email, code, now, false)];
    }

    /**
      `verifyCode`: answers whether the email's newest record accepts the code at `now`; on
      success that record, and nothing else, becomes verified; on failure nothing changes.
    */
    method VerifyCode(email: string, code: string, now: int) returns (ok: bool)
      modifies this
      ensures ok == Accepted(old(records), email, code, now)
      ensures records == if ok then MarkLatestVerified(old(records), email) else old(records)
    {
      var top := Latest(records, email);
      if top.None? {
        return false;
      }
      var v := records[top.value];
      if !v.verified && v.code == code && v.createdAt > now - ValidFor {
        records := records[top.value := v.(verified := true)];
        return true;
      }
      return false;
    }
  }
}
