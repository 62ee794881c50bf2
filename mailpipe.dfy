/**
 * The inbound mail pipeline: who sent a message, whether its signature is
 * good, what it is about and which handler it is for, the responses to
 * rejected messages, and the loops that feed a mailbox through all of it.
 * PGP verification, `decode_header` and the handlers themselves are
 * parameters.
 */
module Mailpipe {

  import opened Outcome
  import opened Text
  import Sorting
  import opened PersonModel
  import opened AssignmentModel
  import opened CourseModel
  import opened Mail
  import opened Handler

  // ---------------------------------------------------------------- sender

  /** `s[1:-1]`: without the first and last characters; nothing is left of a string shorter than two. */
  function Unwrap(s: string): string
  {
    if |s| >= 2 then s[1..|s| - 1] else ""
  }

  /** The angle brackets around a Return-Path address come off. */
  lemma UnwrapAngle(address: string)
    ensures Unwrap("<" + address + ">") == address
  {
    assert ("<" + address + ">")[1..|address| + 1] == address;
  }

  /** `find_people(email=address)`. */
  function ByEmail(address: string): Query
  {
    Query(None, Some(address), None)
  }

  /**
   * `_get_message_person`: the one person registered under the Return-Path
   * address; no Return-Path, nobody, or several people is an error.
   */
  function PersonOf(c: Course, m: Message): (r: Result<Person, Invalid>)
    ensures Get(m.headers, "Return-Path").None? ==> r == Err(Raise(NoReturnPath, "no Return-Path"))
    ensures Get(m.headers, "Return-Path").Some? ==>
              var address := Unwrap(Get(m.headers, "Return-Path").value);
              var people := Matching(c.people, ByEmail(address));
              (|people| == 0 ==> r.Err? && r.error.kind == UnregisteredAddress(address)) &&
              (|people| > 1 ==> r.Err? && r.error.kind == AmbiguousAddress(address, people)) &&
              (|people| == 1 ==> r == Ok(people[0]))
    ensures r.Ok? ==> r.value in c.people &&
                      Unwrap(Get(m.headers, "Return-Path").value) in Emails(r.value)
  {
    match Get(m.headers, "Return-Path")
    case None => Err(Raise(NoReturnPath, "no Return-Path"))
    case Some(sender) =>
      var address := Unwrap(sender);
      var people := Matching(c.people, ByEmail(address));
      MatchingMembers(c.people, ByEmail(address));
      if |people| == 0 then
        Err(Raise(UnregisteredAddress(address), "unregistered address " + address, message := Some(m)))
      else if |people| > 1 then
        Err(Raise(AmbiguousAddress(address, people), "ambiguous address " + address, message := Some(m)))
      else
        assert people[0] in people;
        Ok(people[0])
  }

  // ---------------------------------------------------------------- subject

  /** What the pipeline makes of a decoded subject: lower case, with every `#` removed. */
  function Fold(s: string): string
  {
    RemoveChar(Lower(s), '#')
  }

  lemma {:induction false} RemoveAbsent(s: string, c: char)
    requires c !in s
    ensures RemoveChar(s, c) == s
  {
    if s != [] {
      RemoveAbsent(s[1..], c);
    }
  }

  lemma LowerOfLower(s: string)
    requires forall i :: 0 <= i < |s| ==> !IsUpper(s[i])
    ensures Lower(s) == s
  {
  }

  /** A folded subject has no `#` and no upper-case letter. */
  lemma FoldClean(s: string)
    ensures '#' !in Fold(s)
    ensures forall i :: 0 <= i < |Fold(s)| ==> !IsUpper(Fold(s)[i])
  {
    var l := Lower(s);
    var f := Fold(s);
    forall i | 0 <= i < |f|
      ensures !IsUpper(f[i])
    {
      var d := f[i];
      assert d != '#';
      assert multiset(f)[d] > 0;
      assert multiset(l)[d] > 0;
      var j :| 0 <= j < |l| && l[j] == d;
    }
  }

  /** Folding twice is folding once. */
  lemma FoldIdempotent(s: string)
    ensures Fold(Fold(s)) == Fold(s)
  {
    FoldClean(s);
    LowerOfLower(Fold(s));
    RemoveAbsent(Fold(s), '#');
  }

  /**
   * `_get_message_subject`: the folded subject; a message without a Subject
   * is a `SubjectlessMessage`.  `decode` stands for `decode_header` and the
   * joining of the decoded pieces.
   */
  function SubjectOf(m: Message, decode: string -> string): (r: Result<string, Invalid>)
    ensures r.Err? <==> Get(m.headers, "Subject").None?
    ensures r.Err? ==> r.error == Raise(SubjectlessMessage, "no subject", message := Some(m))
    ensures r.Ok? ==> r.value == Fold(decode(Get(m.headers, "Subject").value)) && Fold(r.value) == r.value
  {
    match Get(m.headers, "Subject")
    case None => Err(Raise(SubjectlessMessage, "no subject", message := Some(m)))
    case Some(raw) =>
      FoldIdempotent(decode(raw));
      Ok(Fold(decode(raw)))
  }

  // ---------------------------------------------------------------- target

  /** What `.*$` can match: no line break, except one at the very end. */
  predicate LineTail(t: string)
  {
    '\n' !in t || ('\n' !in t[..|t| - 1] && t[|t| - 1] == '\n')
  }

  /**
   * The tag pattern can match with its `[` at `i`: no line break before it,
   * and after the first `]` that follows, only the rest of the line.
   */
  predicate OpensAt(s: string, i: nat)
  {
    i < |s| && s[i] == '[' && '\n' !in s[..i] && Closes(s[i + 1..])
  }

  /** `([^]]*)\].*$` matches: there is a `]`, and after the first one only the rest of the line. */
  predicate Closes(t: string)
  {
    match Find(t, ']')
    case None => false
    case Some(k) => LineTail(t[k + 1..])
  }

  /** The last position that is set. */
  function LastSet(b: seq<bool>): (r: Option<nat>)
    ensures r.None? <==> forall i :: 0 <= i < |b| ==> !b[i]
    ensures r.Some? ==> r.value < |b| && b[r.value] && forall i :: r.value < i < |b| ==> !b[i]
  {
    if b == [] then None
    else if b[|b| - 1] then Some(|b| - 1)
    else
      var r := LastSet(b[..|b| - 1]);
      assert forall i :: 0 <= i < |b| - 1 ==> b[..|b| - 1][i] == b[i];
      r
  }

  /** Where the pattern opens: the greedy `.*` tries the longest prefix first, so the last place it can. */
  function LastOpen(s: string): (r: Option<nat>)
    ensures r.None? <==> forall i: nat :: i < |s| ==> !OpensAt(s, i)
    ensures r.Some? ==> r.value < |s| && OpensAt(s, r.value) && forall i: nat :: r.value < i < |s| ==> !OpensAt(s, i)
  {
    var opens := seq(|s|, i requires 0 <= i < |s| => OpensAt(s, i));
    assert forall i :: 0 <= i < |s| ==> opens[i] == OpensAt(s, i);
    LastSet(opens)
  }

  /** `match.group(1)` of the tag pattern: from the opening `[` to the first `]` after it. */
  function Tag(s: string): (r: Option<string>)
    ensures r.Some? ==> ']' !in r.value
  {
    match LastOpen(s)
    case None => None
    case Some(i) =>
      var k := Find(s[i + 1..], ']').value;
      Some(s[i + 1..][..k])
  }

  /** On one line, the pattern opens at every `[` with a `]` somewhere after it. */
  lemma OpensAtOneLine(s: string, i: nat)
    requires '\n' !in s && i < |s|
    ensures OpensAt(s, i) <==> s[i] == '[' && ']' in s[i + 1..]
  {
    assert '\n' !in s[..i];
    if s[i] == '[' && ']' in s[i + 1..] {
      var k := Find(s[i + 1..], ']').value;
      assert '\n' !in s[i + 2 + k..];
    }
  }

  /**
   * On one line the tag comes from the last `[` that has a `]` after it, and
   * runs to the first such `]`.
   */
  lemma TagIsRightmost(s: string, i: nat)
    requires '\n' !in s
    requires i < |s| && s[i] == '[' && ']' in s[i + 1..]
    requires forall j :: i < j < |s| && s[j] == '[' ==> ']' !in s[j + 1..]
    ensures Tag(s) == Some(s[i + 1..][..Find(s[i + 1..], ']').value])
  {
    OpensAtOneLine(s, i);
    forall j | i < j < |s|
      ensures !OpensAt(s, j)
    {
      OpensAtOneLine(s, j);
    }
    assert LastOpen(s) == Some(i);
  }

  /** On one line the tag holds neither `[` nor `]`. */
  lemma TagNoBrackets(s: string)
    requires '\n' !in s && Tag(s).Some?
    ensures '[' !in Tag(s).value && ']' !in Tag(s).value
  {
    var i := LastOpen(s).value;
    var rest := s[i + 1..];
    var k := Find(rest, ']').value;
    if '[' in rest[..k] {
      var j :| 0 <= j < k && rest[j] == '[';
      assert s[i + 1 + j] == '[';
      assert s[i + 1 + j + 1..][k - j - 1] == ']';
      OpensAtOneLine(s, i + 1 + j);
    }
  }

  /** With a line break the tag can hold a `[`: `.*` cannot cross the break, so the pattern opens earlier. */
  lemma TagAcrossLines(s: string)
    requires s == "[a\n[b]"
    ensures Tag(s) == Some("a\n[b")
  {
    assert !OpensAt(s, 3) by {
      assert s[..3][2] == '\n';
    }
    assert Find(s[1..], ']') == Some(4) by {
      FindAt(s[1..], ']', 4);
    }
    assert OpensAt(s, 0);
    assert !OpensAt(s, 1) && !OpensAt(s, 2) && !OpensAt(s, 4) && !OpensAt(s, 5);
    assert LastOpen(s) == Some(0);
    assert s[1..][..4] == "a\n[b";
  }

  /** A subject with one bracketed tag and no line break yields that tag. */
  lemma TagOfOne(pre: string, tag: string, post: string)
    requires '[' !in pre && '[' !in tag && ']' !in tag && '[' !in post
    requires '\n' !in pre && '\n' !in tag && '\n' !in post
    ensures Tag(pre + "[" + tag + "]" + post) == Some(tag)
  {
    var s := pre + "[" + tag + "]" + post;
    var i := |pre|;
    assert s[i + 1..] == tag + "]" + post;
    FindAt(s[i + 1..], ']', |tag|);
    assert s[i + 1..][..|tag|] == tag;
    assert forall j :: i < j < |s| ==> s[j] != '[';
    assert '\n' !in s;
    assert s[i] == '[';
    assert s[i + 1..][|tag|] == ']';
    TagIsRightmost(s, i);
  }

  /** A subject without `[` has no tag. */
  lemma NoBracketNoTag(s: string)
    requires '[' !in s
    ensures Tag(s).None?
  {
  }

  /**
   * `_get_message_target`: the text after the last `:` of the tag; no tag
   * and an empty tag are distinct subject errors.
   */
  function TargetOf(subject: string): (r: Result<string, Invalid>)
    ensures r.Ok? <==> Tag(subject).Some? && Tag(subject).value != ""
    ensures Tag(subject).None? ==>
              r == Err(Raise(InvalidSubjectMessage, "no tag in " + Repr(subject), subject := Some(subject)))
    ensures Tag(subject) == Some("") ==>
              r == Err(Raise(InvalidSubjectMessage, "empty tag in " + Repr(subject), subject := Some(subject)))
    ensures r.Ok? ==> ':' !in r.value && EndsWith(Tag(subject).value, r.value)
    ensures r.Ok? && ':' !in Tag(subject).value ==> r.value == Tag(subject).value
  {
    match Tag(subject)
    case None => Err(Raise(InvalidSubjectMessage, "no tag in " + Repr(subject), subject := Some(subject)))
    case Some(tag) =>
      if tag == "" then Err(Raise(InvalidSubjectMessage, "empty tag in " + Repr(subject), subject := Some(subject)))
      else Ok(AfterLast(tag, ':'))
  }

  /** A course prefix before `:` is dropped: the target is what follows the last colon. */
  lemma AfterLastColon(a: string, b: string)
    requires ':' !in b
    ensures AfterLast(a + ":" + b, ':') == b
  {
    var s := a + ":" + b;
    assert s[|a| + 1..] == b;
    RFindAt(s, ':', |a|);
  }

  /** A subject with one non-empty tag on one line names what follows the tag's last colon. */
  lemma TargetOfOne(pre: string, tag: string, post: string)
    requires tag != "" && '[' !in pre && '[' !in tag && ']' !in tag && '[' !in post
    requires '\n' !in pre && '\n' !in tag && '\n' !in post
    ensures TargetOf(pre + "[" + tag + "]" + post) == Ok(AfterLast(tag, ':'))
  {
    TagOfOne(pre, tag, post);
  }

  /**
   * The doctests `[phys160:abc]` and `[abc]`: with or without a course
   * prefix, the target is the name after it.
   */
  lemma TargetWithCourse(pre: string, course: string, name: string, post: string)
    requires ':' !in name && '[' !in pre + course + name + post && ']' !in course + name
    requires '\n' !in pre + course + name + post
    ensures TargetOf(pre + "[" + (course + ":" + name) + "]" + post) == Ok(name)
  {
    assert forall c :: c in course + ":" + name ==> c == ':' || c in course + name;
    assert forall c :: c in pre || c in post ==> c in pre + course + name + post;
    assert forall c :: c in course + name ==> c in pre + course + name + post;
    TargetOfOne(pre, course + ":" + name, post);
    AfterLastColon(course, name);
  }

  lemma TargetWithoutCourse(pre: string, name: string, post: string)
    requires name != "" && ':' !in name && '[' !in pre + name + post && ']' !in name
    requires '\n' !in pre + name + post
    ensures TargetOf(pre + "[" + name + "]" + post) == Ok(name)
  {
    assert forall c :: c in pre || c in name || c in post ==> c in pre + name + post;
    TargetOfOne(pre, name, post);
  }

  /** The doctest `'[] empty tag'`: an empty tag is its own error, distinct from a missing one. */
  lemma TargetEmpty(pre: string, post: string)
    requires '[' !in pre && '[' !in post && '\n' !in pre && '\n' !in post
    ensures var s := pre + "[" + "" + "]" + post;
            TargetOf(s) == Err(Raise(InvalidSubjectMessage, "empty tag in " + Repr(s), subject := Some(s)))
  {
    TagOfOne(pre, "", post);
  }

  /** The doctest `'no tag'`: a subject without a `[` is rejected, quoting the subject. */
  lemma TargetMissing(s: string)
    requires '[' !in s && '\'' !in s && '\\' !in s && '\n' !in s && '\r' !in s && '\t' !in s
    ensures TargetOf(s) == Err(Raise(InvalidSubjectMessage, "no tag in '" + s + "'", subject := Some(s)))
  {
    NoBracketNoTag(s);
    ReprPlain(s);
    assert "no tag in " + ("'" + s + "'") == "no tag in '" + s + "'";
  }

  // ---------------------------------------------------------------- verification

  /** One signature of a verify result: its fingerprints and its status summary. */
  datatype Signature = Signature(fingerprints: seq<string>, summary: nat)

  /**
   * What `pgp_mime.verify` gives: it raises (`ValueError` or
   * `AssertionError`, for a message that is not signed), or it returns the
   * decrypted message, the overall verdict, and the signatures listed in its
   * report.
   */
  datatype VerifyResult = Raised | Verified(decrypted: Message, verified: bool, signatures: seq<Signature>)

  /** Signed by the key: one of the signature's fingerprints ends with the key id. */
  predicate SignedBy(sig: Signature, key: string)
  {
    exists j :: 0 <= j < |sig.fingerprints| && EndsWith(sig.fingerprints[j], key)
  }

  /** The last signature by the key: each one the loop finds replaces the one before. */
  function LastSigned(sigs: seq<Signature>, key: string): (r: Option<nat>)
    ensures r.None? <==> forall i :: 0 <= i < |sigs| ==> !SignedBy(sigs[i], key)
    ensures r.Some? ==> r.value < |sigs| && SignedBy(sigs[r.value], key)
    ensures r.Some? ==> forall i :: r.value < i < |sigs| ==> !SignedBy(sigs[i], key)
  {
    if sigs == [] then None
    else if SignedBy(sigs[|sigs| - 1], key) then Some(|sigs| - 1)
    else LastSigned(sigs[..|sigs| - 1], key)
  }

  /** The header fields that are not copied onto the decrypted message. */
  const Dropped: seq<string> := ["content-type", "mime-version", "content-disposition"]

  /** The original's fields that are copied, in order. */
  function Copied(headers: seq<Header>): seq<Header>
  {
    if headers == [] then []
    else
      Copied(headers[..|headers| - 1]) +
      (if Lower(headers[|headers| - 1].name) in Dropped then [] else [headers[|headers| - 1]])
  }

  /** Exactly the fields other than content-type, mime-version and content-disposition are copied, in any case. */
  lemma {:induction false} CopiedMembers(headers: seq<Header>, h: Header)
    ensures h in Copied(headers) <==> h in headers && Lower(h.name) !in Dropped
  {
    if headers != [] {
      CopiedMembers(headers[..|headers| - 1], h);
      assert headers == headers[..|headers| - 1] + [headers[|headers| - 1]];
    }
  }

  /** The decrypted message with the original's fields appended, marked authenticated. */
  function Authenticated(decrypted: Message, original: Message): Message
  {
    decrypted.(headers := decrypted.headers + Copied(original.headers), authenticated := true)
  }

  /**
   * `_get_verified_message` with the status summary read from the signature
   * by the key: nothing when verification raises, when no signature is by the
   * key, or when the verdict is negative and that signature's summary is not
   * zero.
   */
  function VerifiedMessage(m: Message, key: string, v: VerifyResult): (r: Option<Message>)
    ensures r.Some? <==> v.Verified? && LastSigned(v.signatures, key).Some? &&
                         (v.verified || v.signatures[LastSigned(v.signatures, key).value].summary == 0)
    ensures r.Some? ==> r.value == Authenticated(v.decrypted, m) && r.value.authenticated
  {
    match v
    case Raised => None
    case Verified(decrypted, verified, sigs) =>
      match LastSigned(sigs, key)
      case None => None
      case Some(i) => if !verified && sigs[i].summary != 0 then None else Some(Authenticated(decrypted, m))
  }

  /** `_get_verified_message` as written: the summary is read from the last signature of the report. */
  function VerifiedMessageAsWritten(m: Message, key: string, v: VerifyResult): (r: Option<Message>)
    ensures r.Some? <==> v.Verified? && LastSigned(v.signatures, key).Some? &&
                         (v.verified || v.signatures[|v.signatures| - 1].summary == 0)
  {
    match v
    case Raised => None
    case Verified(decrypted, verified, sigs) =>
      match LastSigned(sigs, key)
      case None => None
      case Some(i) => if !verified && sigs[|sigs| - 1].summary != 0 then None else Some(Authenticated(decrypted, m))
  }

  /** Both agree whenever the signature by the key is the last one, as with a single signature. */
  lemma VerifiedAgree(m: Message, key: string, v: VerifyResult)
    requires v.Verified? && v.signatures != [] && SignedBy(v.signatures[|v.signatures| - 1], key)
    ensures VerifiedMessageAsWritten(m, key, v) == VerifiedMessage(m, key, v)
  {
  }

  /**
   * A good signature by the key followed by a bad one by another key: as
   * written the message is refused, because the other signature's summary is
   * read.
   */
  lemma VerifiedAsWrittenReadsWrongSummary(m: Message, d: Message, key: string, mine: string, other: string)
    requires EndsWith(mine, key) && !EndsWith(other, key)
    ensures var v := Verified(d, false, [Signature([mine], 0), Signature([other], 1)]);
            VerifiedMessageAsWritten(m, key, v).None? && VerifiedMessage(m, key, v).Some?
  {
    var sigs := [Signature([mine], 0), Signature([other], 1)];
    assert SignedBy(sigs[0], key) by {
      assert sigs[0].fingerprints[0] == mine;
    }
    assert !SignedBy(sigs[1], key);
    assert LastSigned(sigs, key) == Some(0) by {
      assert sigs[..1][0] == sigs[0];
    }
  }

  /** The key is pinned: a message with no signature by the key is refused, however good its signatures. */
  lemma VerifiedPinsKey(m: Message, key: string, v: VerifyResult)
    requires v.Verified? && forall i :: 0 <= i < |v.signatures| ==> !SignedBy(v.signatures[i], key)
    ensures VerifiedMessage(m, key, v).None? && VerifiedMessageAsWritten(m, key, v).None?
  {
  }

  /**
   * `_get_verified_message`: find the last signature by the key, check its
   * summary when the verdict is negative, and copy the original's fields onto
   * the decrypted message.
   */
  method VerifyMessage(m: Message, key: string, v: VerifyResult) returns (r: Option<Message>)
    ensures r == VerifiedMessage(m, key, v)
  {
    if v.Raised? {
      return None;
    }
    var found := FindSigner(v.signatures, key);
    if found.None? {
      return None;
    }
    if !v.verified && v.signatures[found.value].summary != 0 {
      return None;
    }
    var headers := CopyHeaders(v.decrypted.headers, m.headers);
    r := Some(v.decrypted.(headers := headers, authenticated := true));
  }

  /** The scan over the signatures: the last one with a fingerprint ending in the key. */
  method FindSigner(sigs: seq<Signature>, key: string) returns (found: Option<nat>)
    ensures found == LastSigned(sigs, key)
  {
    found := None;
    for i := 0 to |sigs|
      invariant found == LastSigned(sigs[..i], key)
    {
      assert sigs[..i + 1][..i] == sigs[..i];
      var signed := HasFingerprint(sigs[i].fingerprints, key);
      if signed {
        found := Some(i);
      }
    }
    assert sigs[..|sigs|] == sigs;
  }

  /** The scan over one signature's fingerprints, stopping at the first that ends in the key. */
  method HasFingerprint(fingerprints: seq<string>, key: string) returns (signed: bool)
    ensures signed <==> exists t :: 0 <= t < |fingerprints| && EndsWith(fingerprints[t], key)
  {
    signed := false;
    var j := 0;
    while j < |fingerprints|
      invariant 0 <= j <= |fingerprints|
      invariant forall t :: 0 <= t < j ==> !EndsWith(fingerprints[t], key)
    {
      if EndsWith(fingerprints[j], key) {
        signed := true;
        break;
      }
      j := j + 1;
    }
  }

  /** The loop appending the original's fields other than the dropped ones. */
  method CopyHeaders(headers: seq<Header>, original: seq<Header>) returns (r: seq<Header>)
    ensures r == headers + Copied(original)
  {
    r := headers;
    for k := 0 to |original|
      invariant r == headers + Copied(original[..k])
    {
      assert original[..k + 1][..k] == original[..k];
      if Lower(original[k].name) !in Dropped {
        r := r + [original[k]];
      }
    }
    assert original[..|original|] == original;
  }

  // ---------------------------------------------------------------- parsing

  /** Python's truth value of the key: `None` and `''` mean the person does not sign. */
  predicate HasKey(p: Person)
  {
    p.pgpKey.Some? && p.pgpKey.value != ""
  }

  /** `_get_decoded_message`: the verified message, or an `UnsignedMessage` naming the original. */
  function DecodedOf(m: Message, key: string, v: VerifyResult): (r: Result<Message, Invalid>)
    ensures r.Ok? <==> VerifiedMessage(m, key, v).Some?
    ensures r.Ok? ==> r.value.authenticated
    ensures r.Err? ==> r.error == Raise(UnsignedMessage, "unsigned message", message := Some(m))
  {
    match VerifiedMessage(m, key, v)
    case None => Err(Raise(UnsignedMessage, "unsigned message", message := Some(m)))
    case Some(msg) => Ok(msg)
  }

  /** What a parsed message yields: the original, the message the handler reads, its sender, subject and target. */
  datatype Parsed = Parsed(original: Message, message: Message, person: Person, subject: string, target: string)

  /**
   * `_parse_message`: sender, then (for a person with a key) verification,
   * then subject, then target; the first step that fails stops the rest, and
   * its error is annotated with whatever was found before it.  `v` is what
   * verification would report on this message.
   */
  function Parse(c: Course, m: Message, v: VerifyResult, decode: string -> string): Result<Parsed, Invalid>
  {
    match PersonOf(c, m)
    case Err(e) => Err(Annotate(e, c, m, None, None, None))
    case Ok(person) =>
      var decoded := if HasKey(person) then DecodedOf(m, person.pgpKey.value, v) else Ok(m);
      match decoded
      case Err(e) => Err(Annotate(e, c, m, Some(person), None, None))
      case Ok(msg) =>
        match SubjectOf(msg, decode)
        case Err(e) => Err(Annotate(e, c, m, Some(person), None, None))
        case Ok(subject) =>
          match TargetOf(subject)
          case Err(e) => Err(Annotate(e, c, m, Some(person), Some(subject), None))
          case Ok(target) => Ok(Parsed(m, msg, person, subject, target))
  }

  /**
   * Every rejection carries the course and the original message; the sender
   * is attached once known, and the subject once read.
   */
  lemma ParseErrorsAnnotated(c: Course, m: Message, v: VerifyResult, decode: string -> string)
    ensures var r := Parse(c, m, v, decode);
            r.Err? ==> r.error.course == Some(c) && r.error.message == Some(m)
    ensures var r := Parse(c, m, v, decode);
            r.Err? && PersonOf(c, m).Ok? ==> r.error.person == Some(PersonOf(c, m).value)
    ensures var r := Parse(c, m, v, decode);
            r.Err? && PersonOf(c, m).Err? ==> r.error.kind == PersonOf(c, m).error.kind
  {
  }

  /**
   * A parsed message comes from a registered person, under a folded subject
   * whose tag names the target; the handler sees the authenticated message
   * exactly when the person has a key.
   */
  lemma ParseOk(c: Course, m: Message, v: VerifyResult, decode: string -> string)
    requires Parse(c, m, v, decode).Ok?
    ensures var p := Parse(c, m, v, decode).value;
            p.original == m && p.person in c.people && PersonOf(c, m) == Ok(p.person) &&
            Fold(p.subject) == p.subject && ':' !in p.target &&
            (HasKey(p.person) ==> p.message.authenticated && p.message == VerifiedMessage(m, p.person.pgpKey.value, v).value) &&
            (!HasKey(p.person) ==> p.message == m)
  {
    var person := PersonOf(c, m).value;
    var decoded := if HasKey(person) then DecodedOf(m, person.pgpKey.value, v) else Ok(m);
    var subject := SubjectOf(decoded.value, decode).value;
    assert Parse(c, m, v, decode).value == Parsed(m, decoded.value, person, subject, TargetOf(subject).value);
  }

  /** A person without a key is never asked to sign: what verification would report is irrelevant. */
  lemma ParseWithoutKey(c: Course, m: Message, v1: VerifyResult, v2: VerifyResult, decode: string -> string)
    requires PersonOf(c, m).Ok? && !HasKey(PersonOf(c, m).value)
    ensures Parse(c, m, v1, decode) == Parse(c, m, v2, decode)
  {
  }

  /** A signing person whose message does not verify is refused as unsigned, whatever the subject. */
  lemma ParseUnsigned(c: Course, m: Message, v: VerifyResult, decode: string -> string)
    requires PersonOf(c, m).Ok? && HasKey(PersonOf(c, m).value)
    requires VerifiedMessage(m, PersonOf(c, m).value.pgpKey.value, v).None?
    ensures Parse(c, m, v, decode).Err? && Parse(c, m, v, decode).error.kind == UnsignedMessage
  {
  }

  /**
   * `_parse_message`: each step in turn, remembering what has been found so
   * that a failure is annotated with it.
   */
  method ParseMessage(c: Course, m: Message, v: VerifyResult, decode: string -> string)
    returns (r: Result<Parsed, Invalid>)
    ensures r == Parse(c, m, v, decode)
  {
    var person: Option<Person> := None;
    var subject: Option<string> := None;
    var target: Option<string> := None;
    var message := m;
    var sender := PersonOf(c, m);
    if sender.Err? {
      return Err(Annotate(sender.error, c, m, person, subject, target));
    }
    person := Some(sender.value);
    if HasKey(sender.value) {
      var verified := VerifyMessage(m, sender.value.pgpKey.value, v);
      if verified.None? {
        return Err(Annotate(Raise(UnsignedMessage, "unsigned message", message := Some(m)), c, m, person, subject, target));
      }
      message := verified.value;
    }
    var read := SubjectOf(message, decode);
    if read.Err? {
      return Err(Annotate(read.error, c, m, person, subject, target));
    }
    subject := Some(read.value);
    var tagged := TargetOf(read.value);
    if tagged.Err? {
      return Err(Annotate(tagged.error, c, m, person, subject, target));
    }
    r := Ok(Parsed(m, message, sender.value, read.value, tagged.value));
  }

  // ---------------------------------------------------------------- dispatch

  /** The names handlers are registered under. */
  function Names<H>(handlers: seq<(string, H)>): (r: seq<string>)
    ensures |r| == |handlers|
    ensures forall i :: 0 <= i < |handlers| ==> r[i] == handlers[i].0
  {
    seq(|handlers|, i requires 0 <= i < |handlers| => handlers[i].0)
  }

  /**
   * `_get_handler`: the handler registered under the target; an unknown
   * target is an `InvalidHandlerMessage` listing the registered names.
   */
  function HandlerFor<H>(handlers: seq<(string, H)>, target: string): (r: Result<H, Invalid>)
    ensures r.Ok? <==> target in Names(handlers)
    ensures r.Ok? ==> (target, r.value) in handlers
    ensures r.Err? ==> r.error == Raise(InvalidHandlerMessage(Names(handlers)), "no handler for " + Repr(target),
                                        target := Some(target))
  {
    if handlers == [] then
      Err(Raise(InvalidHandlerMessage([]), "no handler for " + Repr(target), target := Some(target)))
    else if handlers[0].0 == target then Ok(handlers[0].1)
    else
      match HandlerFor(handlers[1..], target)
      case Ok(h) => Ok(h)
      case Err(_) =>
        assert Names(handlers) == [handlers[0].0] + Names(handlers[1..]);
        Err(Raise(InvalidHandlerMessage(Names(handlers)), "no handler for " + Repr(target), target := Some(target)))
  }

  // ---------------------------------------------------------------- error responses

  /** How building an error response can fail: a missing attribute, or nobody to answer. */
  datatype ResponseFailure = AttributeError | NotImplementedError

  /** `message['Message-ID']` formatted into a string: `None` when the field is missing. */
  function MessageIdText(m: Message): string
  {
    Get(m.headers, "Message-ID").GetOr("None")
  }

  function PersonNames(people: seq<Person>): (r: seq<string>)
    ensures |r| == |people|
    ensures forall i :: 0 <= i < |people| ==> r[i] == people[i].name
  {
    seq(|people|, i requires 0 <= i < |people| => people[i].name)
  }

  /** The hint listing the handlers, in sorted order. */
  function HandlerHint(handlers: seq<string>): string
  {
    var targets := Sorting.Sort(handlers, StrLt);
    if targets == [] then "In fact, there are no available handlers for this\ncourse!"
    else "Perhaps you meant to use one of the following:\n  " + Join(targets, "\n  ")
  }

  /** The response to an error: who it goes to, its subject, and the explanation to frame. */
  datatype Explanation = Explanation(target: Option<Person>, subject: string, text: string)

  /**
   * The explanation each class of error gets, or `None` for a missing return
   * path, which is not answered.  The person answered is the error's person,
   * except for an unregistered address, which is answered at that address.
   */
  function Explain(e: Invalid, c: Course): Result<Option<Explanation>, ResponseFailure>
  {
    match e.kind
    case InvalidHandlerMessage(handlers) =>
      if e.subject.None? then Err(AttributeError)
      else Ok(Some(Explanation(e.person, e.error,
        "We got an email from you with the following subject:\n  " + Repr(Repr(e.subject.value)) +
        "\nwhich does not match any submittable handler name for\n" + c.name + ".\n" + HandlerHint(handlers))))
    case SubjectlessMessage =>
      if e.message.None? then Err(AttributeError)
      else Ok(Some(Explanation(e.person, "no subject in " + MessageIdText(e.message.value),
        "We received an email message from you without a subject.")))
    case AmbiguousAddress(address, people) =>
      Ok(Some(Explanation(e.person, e.error,
        "Multiple people match " + address + " (" + Join(PersonNames(people), ", ") + ")")))
    case UnregisteredAddress(address) =>
      Ok(Some(Explanation(Some(NewPerson(address, emails := Some([address]))), e.error,
        "Your email address is not registered with pygrader for\n" + c.name +
        ".  If you feel it should be, contact your professor\nor TA.")))
    case NoReturnPath => Ok(None)
    case InvalidSubjectMessage =>
      Ok(Some(Explanation(e.person, e.error, "We received an email message from you with an invalid\nsubject.")))
    case UnsignedMessage =>
      if e.message.None? then Err(AttributeError)
      else Ok(Some(Explanation(e.person, "unsigned message " + MessageIdText(e.message.value),
        "We received an email message from you without a valid\nPGP signature.")))
    case InvalidAssignment(assignment) =>
      Ok(Some(Explanation(e.person, e.error,
        "We received your submission for " + assignment.name + ", but you are not\n" +
        "allowed to submit that assignment via email.")))
    case InvalidStudent(students) =>
      if e.subject.None? then Err(AttributeError)
      else Ok(Some(Explanation(e.person, e.error,
        "We got an email from you with the following subject:\n  " + Repr(e.subject.value) +
        "\nbut it matches several students:\n  * " + Join(PersonNames(students), "\n  * "))))
    case PermissionViolationMessage => Ok(Some(Explanation(e.person, e.error, e.error)))
    case MissingGradeMessage => Ok(Some(Explanation(e.person, e.error, e.error)))
    case InvalidMessage => Ok(Some(Explanation(e.person, e.error, e.error)))
  }

  /**
   * `_get_error_response`: a reply from the course robot to the one person
   * concerned, framed like every response but ending in a newline.  A
   * missing return path gets no reply; an error with no person to answer
   * cannot be answered.
   */
  function ErrorResponse(e: Invalid): (r: Result<Option<Reply>, ResponseFailure>)
    ensures e.course.None? ==> r == Err(AttributeError)
    ensures e.course.Some? && e.kind.NoReturnPath? ==> r == Ok(None)
    ensures r.Ok? && r.value.Some? ==>
              var reply := r.value.value;
              e.course.Some? && reply.author == e.course.value.robot && |reply.targets| == 1 &&
              reply.subject.Some? && reply.original == e.message &&
              EndsWith(reply.text, "\n") &&
              Unframe(reply.text[..|reply.text| - 1], Alias(reply.targets[0]), Alias(reply.author)).Some?
  {
    if e.course.None? then Err(AttributeError)
    else
      var c := e.course.value;
      match Explain(e, c)
      case Err(f) => Err(f)
      case Ok(None) => Ok(None)
      case Ok(Some(x)) =>
        if x.target.None? then Err(NotImplementedError)
        else
          var body := ResponseText(Alias(x.target.value), x.text, Alias(c.robot));
          UnframeResponse(Alias(x.target.value), x.text, Alias(c.robot));
          assert (body + "\n")[..|body|] == body;
          Ok(Some(Reply(c.robot, [x.target.value], Some(x.subject), body + "\n", e.message)))
  }

  /** The explanation is what the framing holds: taking the last newline and the framing off gives it back. */
  lemma ErrorResponseText(e: Invalid)
    requires ErrorResponse(e).Ok? && ErrorResponse(e).value.Some?
    ensures var reply := ErrorResponse(e).value.value;
            var x := Explain(e, e.course.value).value.value;
            x.target == Some(reply.targets[0]) && reply.subject == Some(x.subject) &&
            Unframe(reply.text[..|reply.text| - 1], Alias(reply.targets[0]), Alias(reply.author)) == Some(x.text)
  {
    var c := e.course.value;
    var x := Explain(e, c).value.value;
    var body := ResponseText(Alias(x.target.value), x.text, Alias(c.robot));
    UnframeResponse(Alias(x.target.value), x.text, Alias(c.robot));
    assert (body + "\n")[..|body|] == body;
  }

  /** Only a missing return path goes unanswered. */
  lemma ErrorResponseSilent(e: Invalid)
    requires e.course.Some?
    ensures ErrorResponse(e) == Ok(None) <==> e.kind.NoReturnPath?
  {
  }

  /**
   * An unregistered address is answered even though nobody is known: the
   * reply goes to a stand-in person named by the address, at that address.
   */
  lemma ErrorResponseUnregistered(e: Invalid, address: string)
    requires e.course.Some? && e.kind == UnregisteredAddress(address)
    ensures ErrorResponse(e).Ok? && ErrorResponse(e).value.Some?
    ensures ErrorResponse(e).value.value.targets == [NewPerson(address, emails := Some([address]))]
  {
  }

  /** Any other error without a person cannot be answered. */
  lemma ErrorResponseNeedsPerson(e: Invalid)
    requires e.course.Some? && e.person.None? && !e.kind.UnregisteredAddress? && !e.kind.NoReturnPath?
    ensures ErrorResponse(e).Err?
  {
  }

  /** An error with a person is answered to that person, under the error's text unless its class names another subject. */
  lemma ErrorResponseToPerson(e: Invalid)
    requires e.course.Some? && e.person.Some? && e.subject.Some? && e.message.Some?
    requires !e.kind.UnregisteredAddress? && !e.kind.NoReturnPath?
    ensures ErrorResponse(e).Ok? && ErrorResponse(e).value.Some?
    ensures ErrorResponse(e).value.value.targets == [e.person.value]
    ensures !e.kind.SubjectlessMessage? && !e.kind.UnsignedMessage? ==>
              ErrorResponse(e).value.value.subject == Some(e.error)
  {
  }

  // ---------------------------------------------------------------- the pipeline

  /**
   * What a handler does with a parsed message, as far as the pipeline sees:
   * it returns, raises an `InvalidMessage`, raises a `Response` carrying an
   * email with the given subject and plain-text payload, or raises anything
   * else.
   */
  datatype HandlerResult = Finished | Rejected(error: Invalid) | Responded(subject: Option<string>, text: string) | Crashed

  /** The handlers by name; each stands for its `run` applied to a parsed message. */
  type Handlers = seq<(string, Parsed -> HandlerResult)>

  /** The options the pipeline runs under. */
  datatype Settings = Settings(continueAfterInvalid: bool, respond: bool, dryRun: bool, hasOutput: bool)

  /** Why a run stops early. */
  datatype Failure =
    | UnknownMailbox(name: string)        // `ValueError(mailbox)`
    | Uncaught(error: Invalid)            // an `InvalidMessage` re-raised
    | CannotRespond(f: ResponseFailure)   // `_get_error_response` failed
    | HandlerFailed                       // the handler raised something else
    | MissingSubject                      // the `assert subject is not None` on a response
    | BadCall                             // `construct_email` called with arguments it does not take

  /** What one message leads to: responses sent, whether it moves to the output mailbox, and a failure. */
  datatype Effect = Effect(sent: seq<Option<Reply>>, move: bool, failure: Option<Failure>)

  /**
   * An error caught with the option to go on: re-raised as it was raised,
   * or answered, with what is known about the message, when responding.
   * `_load_messages` hands the callback only a response that exists
   * (`quietNone`); `mailpipe`'s loop hands it whatever it got.
   */
  function Answer(s: Settings, raised: Invalid, answered: Invalid, move: bool, quietNone: bool): (r: Effect)
    ensures |r.sent| <= 1 && r.move == move
    ensures !s.continueAfterInvalid ==> r == Effect([], move, Some(Uncaught(raised)))
    ensures s.continueAfterInvalid && !s.respond ==> r == Effect([], move, None)
    ensures quietNone ==> forall i :: 0 <= i < |r.sent| ==> r.sent[i].Some?
  {
    if !s.continueAfterInvalid then Effect([], move, Some(Uncaught(raised)))
    else if !s.respond then Effect([], move, None)
    else
      match ErrorResponse(answered)
      case Err(f) => Effect([], move, Some(CannotRespond(f)))
      case Ok(reply) => Effect(if quietNone && reply.None? then [] else [reply], move, None)
  }

  /**
   * A handler's response as written: the payload is reframed and the subject
   * taken off, and then `construct_email` is called with a `message` keyword it
   * does not have, so nothing is delivered.
   */
  function DeliverAsWritten(c: Course, p: Parsed, s: Settings, subject: Option<string>, text: string, move: bool): Effect
  {
    if !s.respond then Effect([], move, None)
    else if subject.None? then Effect([], move, Some(MissingSubject))
    else Effect([], move, Some(BadCall))
  }

  /**
   * A handler's response as intended: the payload framed with the person's
   * alias and the robot's signature, sent from the robot to the person under
   * the response's subject.
   */
  function Deliver(c: Course, p: Parsed, s: Settings, subject: Option<string>, text: string, move: bool): (r: Effect)
    ensures |r.sent| <= 1 && r.move == move
    ensures s.respond && subject.Some? ==>
              r.failure.None? && |r.sent| == 1 && r.sent[0].Some? &&
              r.sent[0].value.author == c.robot && r.sent[0].value.targets == [p.person] &&
              r.sent[0].value.subject == subject && |r.sent[0].value.text| > 0 &&
              Unframe(r.sent[0].value.text[..|r.sent[0].value.text| - 1], Alias(p.person), Alias(c.robot)) == Some(text)
  {
    if !s.respond then Effect([], move, None)
    else if subject.None? then Effect([], move, Some(MissingSubject))
    else
      var body := ResponseText(Alias(p.person), text, Alias(c.robot));
      UnframeResponse(Alias(p.person), text, Alias(c.robot));
      assert (body + "\n")[..|body|] == body;
      Effect([Some(Reply(c.robot, [p.person], subject, body + "\n", None))], move, None)
  }

  /** As written, a handler's response never reaches the person when responding; as intended it does. */
  lemma DeliverAsWrittenDropsResponses(c: Course, p: Parsed, s: Settings, subject: string, text: string, move: bool)
    requires s.respond
    ensures DeliverAsWritten(c, p, s, Some(subject), text, move) == Effect([], move, Some(BadCall))
    ensures Deliver(c, p, s, Some(subject), text, move).sent != [] && Deliver(c, p, s, Some(subject), text, move).failure.None?
  {
  }

  /**
   * One message through `_load_messages` and the body of `mailpipe`'s loop,
   * given what parsing it gave: a message that does not parse is answered or
   * stops the run; one that parses is moved to the output mailbox (unless
   * this is a dry run) and then handed to the handler its target names.
   */
  function Step(c: Course, handlers: Handlers, s: Settings, m: Message, parsed: Result<Parsed, Invalid>): (r: Effect)
    ensures |r.sent| <= 1
    ensures r.move <==> parsed.Ok? && s.hasOutput && !s.dryRun
    ensures parsed.Err? && !s.continueAfterInvalid ==> r == Effect([], false, Some(Uncaught(parsed.error)))
    ensures !s.respond ==> r.sent == []
  {
    match parsed
    case Err(e) => Answer(s, e, e, false, true)
    case Ok(p) =>
      var move := s.hasOutput && !s.dryRun;
      match HandlerFor(handlers, p.target)
      case Err(e) => Answer(s, e, Annotate(e, c, m, Some(p.person), Some(p.subject), Some(p.target)), move, false)
      case Ok(handler) =>
        match handler(p)
        case Finished => Effect([], move, None)
        case Rejected(e) => Answer(s, e, Annotate(e, c, m, Some(p.person), Some(p.subject), Some(p.target)), move, false)
        case Responded(subject, text) => Deliver(c, p, s, subject, text, move)
        case Crashed => Effect([], move, Some(HandlerFailed))
  }

  /** A message whose target names no handler is answered like any rejected message, with what parsing found. */
  lemma StepUnknownTarget(c: Course, handlers: Handlers, s: Settings, m: Message, p: Parsed)
    requires p.target !in Names(handlers) && s.continueAfterInvalid && s.respond
    ensures var e := Annotate(Raise(InvalidHandlerMessage(Names(handlers)), "no handler for " + Repr(p.target),
                                    target := Some(p.target)), c, m, Some(p.person), Some(p.subject), Some(p.target));
            ErrorResponse(e).Ok? ==> Step(c, handlers, s, m, Ok(p)).sent == [ErrorResponse(e).value]
  {
  }

  /** A message without a `Return-Path` is passed over in silence when the run goes on. */
  lemma StepNoReturnPath(c: Course, handlers: Handlers, s: Settings, m: Message, v: VerifyResult,
                         decode: string -> string)
    requires Get(m.headers, "Return-Path").None? && s.continueAfterInvalid
    ensures Step(c, handlers, s, m, Parse(c, m, v, decode)) == Effect([], false, None)
  {
    ParseErrorsAnnotated(c, m, v, decode);
    ErrorResponseSilent(Parse(c, m, v, decode).error);
  }

  /** What one stored message leads to. */
  function EffectOf(c: Course, handlers: Handlers, s: Settings, x: Stored,
                    verify: Message -> VerifyResult, decode: string -> string): Effect
  {
    Step(c, handlers, s, x.message, Parse(c, x.message, verify(x.message), decode))
  }

  /** What each message leads to, in order. */
  function Effects(c: Course, handlers: Handlers, s: Settings, items: seq<Stored>,
                   verify: Message -> VerifyResult, decode: string -> string): seq<Effect>
  {
    seq(|items|, k requires 0 <= k < |items| => EffectOf(c, handlers, s, items[k], verify, decode))
  }

  /** `effects` lists what each of `items` leads to; each entry is looked at only where it is needed. */
  ghost predicate Describes(effects: seq<Effect>, c: Course, handlers: Handlers, s: Settings, items: seq<Stored>,
                            verify: Message -> VerifyResult, decode: string -> string)
  {
    |effects| == |items| &&
    forall k {:trigger EffectOf(c, handlers, s, items[k], verify, decode)} ::
      0 <= k < |items| ==> effects[k] == EffectOf(c, handlers, s, items[k], verify, decode)
  }

  /** What a run has done: responses sent, messages moved, keys deleted from the input, and why it stopped. */
  datatype Trace = Trace(sent: seq<Option<Reply>>, moved: seq<Message>, removed: seq<nat>, failure: Option<Failure>)

  /** A trace extended by one more message and its effect. */
  function Extend(t: Trace, x: Stored, e: Effect, fromBox: bool): Trace
  {
    Trace(t.sent + e.sent,
          t.moved + (if e.move then [x.message] else []),
          t.removed + (if e.move && fromBox then [x.key] else []),
          e.failure)
  }

  /** The messages taken in order, each with its effect, until one fails; `fromBox` when they come from an input mailbox. */
  function Run(items: seq<Stored>, effects: seq<Effect>, fromBox: bool): Trace
    requires |effects| == |items|
  {
    if items == [] then Trace([], [], [], None)
    else
      var n := |items| - 1;
      var t := Run(items[..n], effects[..n], fromBox);
      if t.failure.Some? then t else Extend(t, items[n], effects[n], fromBox)
  }

  lemma RunNext(items: seq<Stored>, effects: seq<Effect>, fromBox: bool, i: nat)
    requires |effects| == |items| && i < |items|
    ensures var t := Run(items[..i], effects[..i], fromBox);
            Run(items[..i + 1], effects[..i + 1], fromBox) ==
            if t.failure.Some? then t else Extend(t, items[i], effects[i], fromBox)
  {
    assert items[..i + 1][..i] == items[..i] && effects[..i + 1][..i] == effects[..i];
  }

  /**
   * Only messages whose effect is a move are moved, each moved one's key is
   * the one deleted, and nothing is deleted from standard input.
   */
  lemma {:induction false} RunMoves(items: seq<Stored>, effects: seq<Effect>, fromBox: bool)
    requires |effects| == |items|
    ensures var t := Run(items, effects, fromBox);
            (forall i :: 0 <= i < |t.moved| ==>
               exists j :: 0 <= j < |items| && effects[j].move && t.moved[i] == items[j].message) &&
            (fromBox ==> |t.removed| == |t.moved|) && (!fromBox ==> t.removed == []) &&
            ((forall j :: 0 <= j < |effects| ==> !effects[j].move) ==> t.moved == [] && t.removed == [])
  {
    if items != [] {
      var n := |items| - 1;
      RunMoves(items[..n], effects[..n], fromBox);
      var t := Run(items[..n], effects[..n], fromBox);
      forall i | 0 <= i < |t.moved|
        ensures exists j :: 0 <= j < |items| && effects[j].move && t.moved[i] == items[j].message
      {
        var j :| 0 <= j < n && effects[..n][j].move && t.moved[i] == items[..n][j].message;
        assert effects[j].move && t.moved[i] == items[j].message;
      }
    }
  }

  /** Once a failure stops the run, the messages after it are never looked at. */
  lemma {:induction false} RunStops(items: seq<Stored>, effects: seq<Effect>, fromBox: bool, k: nat)
    requires |effects| == |items| && k <= |items|
    requires Run(items[..k], effects[..k], fromBox).failure.Some?
    ensures Run(items, effects, fromBox) == Run(items[..k], effects[..k], fromBox)
    decreases |items|
  {
    if k < |items| {
      var n := |items| - 1;
      assert items[..n][..k] == items[..k] && effects[..n][..k] == effects[..k];
      RunStops(items[..n], effects[..n], fromBox, k);
    } else {
      assert items[..k] == items && effects[..k] == effects;
    }
  }

  /** A message that fails stops the run there. */
  lemma RunStopsAt(items: seq<Stored>, effects: seq<Effect>, fromBox: bool, k: nat)
    requires |effects| == |items| && k < |items| && effects[k].failure.Some?
    ensures Run(items, effects, fromBox).failure.Some?
    ensures Run(items, effects, fromBox) == Run(items[..k + 1], effects[..k + 1], fromBox)
  {
    var t := Run(items[..k], effects[..k], fromBox);
    assert items[..k + 1][..k] == items[..k] && effects[..k + 1][..k] == effects[..k];
    assert effects[..k + 1][k] == effects[k];
    RunStops(items, effects, fromBox, k + 1);
  }

  /** Each message leads to at most one response, and none is sent when not responding. */
  lemma {:induction false} RunSends(items: seq<Stored>, effects: seq<Effect>, fromBox: bool)
    requires |effects| == |items|
    requires forall j :: 0 <= j < |effects| ==> |effects[j].sent| <= 1
    ensures |Run(items, effects, fromBox).sent| <= |items|
    ensures (forall j :: 0 <= j < |effects| ==> effects[j].sent == []) ==> Run(items, effects, fromBox).sent == []
  {
    if items != [] {
      var n := |items| - 1;
      RunSends(items[..n], effects[..n], fromBox);
    }
  }

  /** Only messages that parse are moved, and a dry run or a run without output moves and deletes nothing. */
  lemma PipelineMoves(c: Course, handlers: Handlers, s: Settings, items: seq<Stored>, fromBox: bool,
                      verify: Message -> VerifyResult, decode: string -> string)
    ensures var t := Run(items, Effects(c, handlers, s, items, verify, decode), fromBox);
            (forall i :: 0 <= i < |t.moved| ==> Parse(c, t.moved[i], verify(t.moved[i]), decode).Ok?) &&
            (s.dryRun || !s.hasOutput ==> t.moved == [] && t.removed == [])
  {
    var effects := Effects(c, handlers, s, items, verify, decode);
    forall j | 0 <= j < |items|
      ensures effects[j].move ==> Parse(c, items[j].message, verify(items[j].message), decode).Ok?
      ensures s.dryRun || !s.hasOutput ==> !effects[j].move
    {
      assert effects[j] == Step(c, handlers, s, items[j].message, Parse(c, items[j].message, verify(items[j].message), decode));
    }
    RunMoves(items, effects, fromBox);
  }

  /** Each message leads to at most one response, and nothing is sent when not responding. */
  lemma PipelineSends(c: Course, handlers: Handlers, s: Settings, items: seq<Stored>, fromBox: bool,
                      verify: Message -> VerifyResult, decode: string -> string)
    ensures var t := Run(items, Effects(c, handlers, s, items, verify, decode), fromBox);
            |t.sent| <= |items| && (!s.respond ==> t.sent == [])
  {
    var effects := Effects(c, handlers, s, items, verify, decode);
    forall j | 0 <= j < |items|
      ensures |effects[j].sent| <= 1 && (!s.respond ==> effects[j].sent == [])
    {
      assert effects[j] == Step(c, handlers, s, items[j].message, Parse(c, items[j].message, verify(items[j].message), decode));
    }
    RunSends(items, effects, fromBox);
  }

  /** Without the option to go on, a message that does not parse stops the run there, unanswered. */
  lemma PipelineStopsAtInvalid(c: Course, handlers: Handlers, s: Settings, items: seq<Stored>, fromBox: bool,
                               verify: Message -> VerifyResult, decode: string -> string, k: nat)
    requires !s.continueAfterInvalid && k < |items|
    requires Parse(c, items[k].message, verify(items[k].message), decode).Err?
    ensures var effects := Effects(c, handlers, s, items, verify, decode);
            var t := Run(items, effects, fromBox);
            t.failure == Some(Uncaught(Parse(c, items[k].message, verify(items[k].message), decode).error)) ==>
              t == Run(items[..k + 1], effects[..k + 1], fromBox)
    ensures Run(items, Effects(c, handlers, s, items, verify, decode), fromBox).failure.Some?
  {
    var effects := Effects(c, handlers, s, items, verify, decode);
    assert effects[k] == Step(c, handlers, s, items[k].message, Parse(c, items[k].message, verify(items[k].message), decode));
    RunStopsAt(items, effects, fromBox, k);
  }

  /** `del mailbox[key]` for each key in turn. */
  function WithoutAll(items: seq<Stored>, keys: seq<nat>): seq<Stored>
    decreases |keys|
  {
    if keys == [] then items else WithoutAll(Without(items, keys[0]), keys[1..])
  }

  lemma {:induction false} WithoutAllSnoc(items: seq<Stored>, keys: seq<nat>, k: nat)
    ensures WithoutAll(items, keys + [k]) == Without(WithoutAll(items, keys), k)
    decreases |keys|
  {
    if keys != [] {
      assert (keys + [k])[1..] == keys[1..] + [k];
      WithoutAllSnoc(Without(items, keys[0]), keys[1..], k);
    }
  }

  /** Where `mailpipe` reads from: standard input, or an mbox or maildir input mailbox. */
  datatype BoxKind = StandardInput | MboxBox | MaildirBox | OtherBox(name: string)

  /** The body of `mailpipe`'s loop for a message that has been parsed. */
  method Process(c: Course, handlers: Handlers, s: Settings, m: Message, parsed: Result<Parsed, Invalid>)
    returns (e: Effect)
    ensures e == Step(c, handlers, s, m, parsed)
  {
    if parsed.Err? {
      return Answer(s, parsed.error, parsed.error, false, true);
    }
    var p := parsed.value;
    var move := s.hasOutput && !s.dryRun;
    var found := HandlerFor(handlers, p.target);
    if found.Err? {
      return Answer(s, found.error, Annotate(found.error, c, m, Some(p.person), Some(p.subject), Some(p.target)), move, false);
    }
    var result := found.value(p);
    match result
    case Finished => e := Effect([], move, None);
    case Rejected(err) => e := Answer(s, err, Annotate(err, c, m, Some(p.person), Some(p.subject), Some(p.target)), move, false);
    case Responded(subject, text) => e := Deliver(c, p, s, subject, text, move);
    case Crashed => e := Effect([], move, Some(HandlerFailed));
  }

  lemma ConcatAssoc<T>(a: seq<T>, b: seq<T>, c: seq<T>)
    ensures (a + b) + c == a + (b + c)
  {
  }

  /** The message at position `i` parsed and handled: its effect is the one listed for it. */
  method ProcessAt(c: Course, handlers: Handlers, s: Settings, items: seq<Stored>, i: nat,
                   verify: Message -> VerifyResult, decode: string -> string, ghost effects: seq<Effect>)
    returns (e: Effect)
    requires i < |items| && Describes(effects, c, handlers, s, items, verify, decode)
    ensures e == effects[i] && |e.sent| <= 1
  {
    var m := items[i].message;
    var parsed := ParseMessage(c, m, verify(m), decode);
    e := Process(c, handlers, s, m, parsed);
    assert e == EffectOf(c, handlers, s, items[i], verify, decode);
  }

  /** The mailboxes and the callback show exactly the trace `t` since they held `calls0`, `shown0` and `items0`. */
  ghost predicate Mirrors(t: Trace, calls0: seq<Option<Reply>>, shown0: seq<Message>, items0: seq<Stored>,
                          input: Mailbox, output: Mailbox, outbox: Outbox)
    reads input, output, outbox
  {
    outbox.calls == calls0 + t.sent && output.Messages() == shown0 + t.moved &&
    input.items == WithoutAll(items0, t.removed)
  }

  /**
   * What one message's effect does: the message is added to the output
   * mailbox and deleted from the input mailbox when it moves, and the
   * response, if any, is handed to the callback.
   */
  method Apply(x: Stored, e: Effect, fromBox: bool, input: Mailbox, output: Mailbox, outbox: Outbox,
               ghost t: Trace, ghost calls0: seq<Option<Reply>>, ghost shown0: seq<Message>, ghost items0: seq<Stored>)
    requires input != output && |e.sent| <= 1
    requires Mirrors(t, calls0, shown0, items0, input, output, outbox)
    modifies input, output, outbox
    ensures Mirrors(Extend(t, x, e, fromBox), calls0, shown0, items0, input, output, outbox)
  {
    if e.move {
      output.Add(x.message, "");
      assert output.Messages() == old(output.Messages()) + [x.message];
      ConcatAssoc(shown0, t.moved, [x.message]);
      if fromBox {
        WithoutAllSnoc(items0, t.removed, x.key);
        input.Remove(x.key);
      } else {
        assert t.removed + [] == t.removed;
      }
    } else {
      assert t.moved + [] == t.moved && t.removed + [] == t.removed;
    }
    if e.sent != [] {
      outbox.Send(e.sent[0]);
      assert e.sent == [e.sent[0]];
    }
    ConcatAssoc(calls0, t.sent, e.sent);
  }

  /** One turn of `mailpipe`'s loop: the message at position `i` handled and its effect applied. */
  method Advance(c: Course, handlers: Handlers, s: Settings, items: seq<Stored>, i: nat, fromBox: bool,
                 input: Mailbox, output: Mailbox, outbox: Outbox,
                 verify: Message -> VerifyResult, decode: string -> string, ghost effects: seq<Effect>,
                 ghost t: Trace, ghost calls0: seq<Option<Reply>>, ghost shown0: seq<Message>, ghost items0: seq<Stored>)
    returns (e: Effect)
    requires i < |items| && Describes(effects, c, handlers, s, items, verify, decode)
    requires input != output && Mirrors(t, calls0, shown0, items0, input, output, outbox)
    modifies input, output, outbox
    ensures e == effects[i] && Mirrors(Extend(t, items[i], e, fromBox), calls0, shown0, items0, input, output, outbox)
  {
    e := ProcessAt(c, handlers, s, items, i, verify, decode, effects);
    Apply(items[i], e, fromBox, input, output, outbox, t, calls0, shown0, items0);
  }

  /**
   * `mailpipe`: load the messages (the one on standard input, or each in the
   * input mailbox), and for each in turn parse it, move it to the output
   * mailbox, hand it to its handler, and send what the run answers, until a
   * failure stops the run.  An unknown mailbox kind fails before anything
   * happens.
   */
  method Mailpipe(c: Course, handlers: Handlers, s: Settings, kind: BoxKind, stream: Message,
                  input: Mailbox, output: Mailbox, outbox: Outbox,
                  verify: Message -> VerifyResult, decode: string -> string)
    returns (failure: Option<Failure>)
    requires input != output
    modifies input, output, outbox
    ensures kind.OtherBox? ==> failure == Some(UnknownMailbox(kind.name)) &&
                               input.items == old(input.items) && output.items == old(output.items) &&
                               outbox.calls == old(outbox.calls)
    ensures !kind.OtherBox? ==>
              var items := if kind.StandardInput? then [Stored(0, stream, "")] else old(input.items);
              var t := Run(items, Effects(c, handlers, s, items, verify, decode), !kind.StandardInput?);
              failure == t.failure && Mirrors(t, old(outbox.calls), old(output.Messages()), old(input.items), input, output, outbox)
  {
    if kind.OtherBox? {
      return Some(UnknownMailbox(kind.name));
    }
    var items := if kind.StandardInput? then [Stored(0, stream, "")] else input.items;
    ghost var effects := Effects(c, handlers, s, items, verify, decode);
    failure := Drain(c, handlers, s, items, !kind.StandardInput?, input, output, outbox, verify, decode, effects);
  }

  /** The loop of `mailpipe` over the loaded messages, each message's effect applied in turn. */
  method Drain(c: Course, handlers: Handlers, s: Settings, items: seq<Stored>, fromBox: bool,
               input: Mailbox, output: Mailbox, outbox: Outbox,
               verify: Message -> VerifyResult, decode: string -> string, ghost effects: seq<Effect>)
    returns (failure: Option<Failure>)
    requires input != output && Describes(effects, c, handlers, s, items, verify, decode)
    modifies input, output, outbox
    ensures var t := Run(items, effects, fromBox);
            failure == t.failure && Mirrors(t, old(outbox.calls), old(output.Messages()), old(input.items), input, output, outbox)
  {
    failure := None;
    ghost var t := Trace([], [], [], None);
    var i := 0;
    while i < |items| && failure.None?
      invariant 0 <= i <= |items|
      invariant t == Run(items[..i], effects[..i], fromBox) && failure == t.failure
      invariant Mirrors(t, old(outbox.calls), old(output.Messages()), old(input.items), input, output, outbox)
    {
      var e := Advance(c, handlers, s, items, i, fromBox, input, output, outbox, verify, decode, effects,
                       t, old(outbox.calls), old(output.Messages()), old(input.items));
      RunNext(items, effects, fromBox, i);
      t := Extend(t, items[i], e, fromBox);
      failure := e.failure;
      i := i + 1;
    }
    if failure.Some? {
      RunStops(items, effects, fromBox, i);
    } else {
      assert items[..i] == items && effects[..i] == effects;
    }
  }
}
