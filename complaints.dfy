/**
 * Complaint submission from the main screen: validating the dialog's input,
 * the record written to the `complaints` list, and the e-mail to the
 * maintainer that follows a successful write. The database write and the
 * mail transfer are outcomes passed in; the submission time is a parameter.
 */
module Complaints {
  import opened Text
  import opened Numbers

  /** The complaint types offered by the dialog, in order. */
  const ComplaintTypes: seq<string> := ["Gate Malfunction", "Sensor Issue", "Delayed Response", "Safety Concern", "Other Issue"]

  /** The type selected when the dialog opens. */
  const DefaultType: string := ComplaintTypes[0]

  /** Choosing item `which` of the dialog's list. */
  function ChooseType(which: nat): (t: string)
    requires which < |ComplaintTypes|
    ensures t in ComplaintTypes
  {
    ComplaintTypes[which]
  }

  /** The dialog starts on "Gate Malfunction", and every choice is one of the five offered types. */
  lemma DefaultTypeIsFirstChoice()
    ensures DefaultType == ChooseType(0) == "Gate Malfunction"
    ensures forall which: nat :: which < |ComplaintTypes| ==> ChooseType(which) in ComplaintTypes
  {
  }

  // ---------------------------------------------------------------------------
  // The stored record

  const Pending := "pending"
  const NotProvided := "Not provided"

  datatype ComplaintRecord = ComplaintRecord(
    complaintType: string,
    details: string,
    timestamp: string,
    status: string,
    userEmail: string,
    userPhone: string)

  /** `ifEmpty { "Not provided" }`. */
  function OrNotProvided(s: string): string
  {
    if s == [] then NotProvided else s
  }

  /** The record written for a complaint: always pending, with sentinels for missing contact details. */
  function NewComplaint(complaintType: string, details: string, timestamp: string, email: string, phone: string): (c: ComplaintRecord)
    ensures c.status == Pending
    ensures c.complaintType == complaintType && c.details == details && c.timestamp == timestamp
    ensures c.userEmail != [] && c.userPhone != []
  {
    ComplaintRecord(complaintType, details, timestamp, Pending, OrNotProvided(email), OrNotProvided(phone))
  }

  /** What a reader of the stored record takes the user to have entered. */
  function EnteredContact(stored: string): string
  {
    if stored == NotProvided then [] else stored
  }

  /**
   * A stored contact field gives back what was entered, except that an
   * entry of literally "Not provided" reads as no entry.
   */
  lemma ContactFieldReadsBack(entered: string)
    ensures entered != NotProvided ==> EnteredContact(OrNotProvided(entered)) == entered
    ensures EnteredContact(OrNotProvided(NotProvided)) == []
    ensures OrNotProvided(entered) == entered <==> entered != []
  {
  }

  // ---------------------------------------------------------------------------
  // The maintainer e-mail

  const SubjectPrefix := "\U{1F682} Railway Crossing Complaint - "
  const EmailPrefix := "\n\U{1F4E7} Email: "
  const PhonePrefix := "\n\U{1F4F1} Phone: "
  const AnonymousLine := "\nAnonymous User"

  function Subject(complaintType: string): string
  {
    SubjectPrefix + complaintType
  }

  /** The subject names the complaint type, and different types give different subjects. */
  lemma SubjectNamesType(a: string, b: string)
    ensures StartsWith(Subject(a), SubjectPrefix) && Subject(a)[|SubjectPrefix|..] == a
    ensures Subject(a) == Subject(b) ==> a == b
  {
    assert Subject(a)[|SubjectPrefix|..] == a;
    assert Subject(b)[|SubjectPrefix|..] == b;
  }

  /** The contact section: an e-mail line, then a phone line, each only when given; "Anonymous User" when neither is. */
  function ContactInfo(email: string, phone: string): string
  {
    (if email != [] then EmailPrefix + email else [])
    + (if phone != [] then PhonePrefix + phone else [])
    + (if email == [] && phone == [] then AnonymousLine else [])
  }

  /** The contact section opens with the e-mail line exactly when an address is given, and is "Anonymous User" exactly when nothing is. */
  lemma ContactInfoOpening(email: string, phone: string)
    ensures ContactInfo(email, phone) == AnonymousLine <==> email == [] && phone == []
    ensures StartsWith(ContactInfo(email, phone), EmailPrefix) <==> email != []
    ensures email != [] ==> StartsWith(ContactInfo(email, phone), EmailPrefix + email)
  {
    var info := ContactInfo(email, phone);
    if email != [] {
      var tail := if phone != [] then PhonePrefix + phone else [];
      assert info == (EmailPrefix + email) + tail;
      assert info[..|EmailPrefix + email|] == EmailPrefix + email;
      assert info[..|EmailPrefix|] == EmailPrefix;
      assert info[1] == EmailPrefix[1] != AnonymousLine[1];
    } else if phone != [] {
      assert info == PhonePrefix + phone;
      assert info[1] == PhonePrefix[1];
      assert info[1] != EmailPrefix[1] && info[1] != AnonymousLine[1];
    } else {
      assert info == AnonymousLine;
      assert info[1] != EmailPrefix[1];
    }
  }

  /** A given phone number closes the contact section. */
  lemma ContactInfoClosing(email: string, phone: string)
    requires phone != []
    ensures var info := ContactInfo(email, phone);
      |PhonePrefix + phone| <= |info| && info[|info| - |PhonePrefix + phone|..] == PhonePrefix + phone
  {
    var head := if email != [] then EmailPrefix + email else [];
    assert ContactInfo(email, phone) == head + (PhonePrefix + phone);
  }

  /** The contact section appended piece by piece, as the message builder does. */
  method BuildContactInfo(email: string, phone: string) returns (info: string)
    ensures info == ContactInfo(email, phone)
    ensures info == AnonymousLine <==> email == [] && phone == []
    ensures StartsWith(info, EmailPrefix) <==> email != []
    ensures email != [] ==> StartsWith(info, EmailPrefix + email)
    ensures phone != [] ==> |PhonePrefix + phone| <= |info| && info[|info| - |PhonePrefix + phone|..] == PhonePrefix + phone
  {
    info := [];
    if email != [] {
      info := info + EmailPrefix + email;
    }
    if phone != [] {
      info := info + PhonePrefix + phone;
    }
    if email == [] && phone == [] {
      info := info + AnonymousLine;
    }
    ContactInfoOpening(email, phone);
    if phone != [] {
      ContactInfoClosing(email, phone);
    }
  }

  /** Recovers the e-mail address and the phone number from a contact section. */
  function ReadContactInfo(info: string): (string, string)
  {
    if info == AnonymousLine then ([], [])
    else if StartsWith(info, EmailPrefix) then
      var rest := info[|EmailPrefix|..];
      var k := IndexOfAny(rest, {'\n'});
      var after := rest[k..];
      (rest[..k], if StartsWith(after, PhonePrefix) then after[|PhonePrefix|..] else [])
    else if StartsWith(info, PhonePrefix) then ([], info[|PhonePrefix|..])
    else ([], [])
  }

  lemma PhoneOnlyReadsBack(phone: string)
    requires phone != []
    ensures ReadContactInfo(ContactInfo([], phone)) == ([], phone)
  {
    var info := PhonePrefix + phone;
    assert ContactInfo([], phone) == info;
    assert info[1] != AnonymousLine[1] && info[1] != EmailPrefix[1];
    assert info[..|PhonePrefix|] == PhonePrefix;
    assert info[|PhonePrefix|..] == phone;
  }

  lemma EmailFirstReadsBack(email: string, phone: string)
    requires email != [] && '\n' !in email
    ensures ReadContactInfo(ContactInfo(email, phone)) == (email, phone)
  {
    var tail := if phone != [] then PhonePrefix + phone else [];
    var info := EmailPrefix + email + tail;
    assert ContactInfo(email, phone) == info;
    assert info[1] != AnonymousLine[1];
    assert info[..|EmailPrefix|] == EmailPrefix;
    var rest := info[|EmailPrefix|..];
    assert rest == email + tail;
    IndexOfAnyIs(rest, {'\n'}, |email|) by {
      assert forall j :: 0 <= j < |email| ==> rest[j] == email[j];
      if tail != [] { assert rest[|email|] == '\n'; }
    }
    assert rest[..|email|] == email;
    assert rest[|email|..] == tail;
    if phone != [] {
      assert tail[..|PhonePrefix|] == PhonePrefix;
      assert tail[|PhonePrefix|..] == phone;
    }
  }

  /**
   * The maintainer can read the e-mail address and the phone number back
   * from the contact section, provided the address is a single line.
   */
  lemma ContactInfoReadsBack(email: string, phone: string)
    requires '\n' !in email
    ensures ReadContactInfo(ContactInfo(email, phone)) == (email, phone)
  {
    if email != [] {
      EmailFirstReadsBack(email, phone);
    } else if phone != [] {
      PhoneOnlyReadsBack(phone);
    } else {
      assert ContactInfo(email, phone) == AnonymousLine;
    }
  }

  // ---------------------------------------------------------------------------
  // Submitting

  /** How the database write ended. */
  datatype WriteOutcome = WriteSucceeded | WriteFailed(message: string)

  /**
   * How the background mail task ended: sent; not sent (`false`, which is also
   * what every exception during the transfer becomes); or an exception escaping
   * the background task outside the transfer.
   */
  datatype MailOutcome = Sent | NotSent | MailError(message: string)

  /** What the user is shown, in order. */
  datatype Notice = Toast(text: string) | Snackbar(text: string)

  /** The parts of the maintainer e-mail that depend on the complaint; the body layout is not modelled. */
  datatype MaintainerEmail = MaintainerEmail(subject: string, complaintType: string, details: string, timestamp: string, contactInfo: string)

  const MissingDetails := "Please provide complaint details"
  const Submitted := "✅ Complaint submitted successfully"
  const Recorded := "Complaint recorded. Sending email notification..."
  const MailSent := "\U{1F4E7} Email sent successfully to maintainer!"
  const MailFailed := "⚠️ Email failed, but complaint saved in database"

  function SubmitFailed(message: string): string
  {
    "❌ Failed to submit complaint: " + message
  }

  function MailErrorText(message: string): string
  {
    "⚠️ Email error: " + message
  }

  /** The toast reporting the mail outcome; none of them touches the stored complaint. */
  function MailNotice(outcome: MailOutcome): Notice
  {
    match outcome
    case Sent => Toast(MailSent)
    case NotSent => Toast(MailFailed)
    case MailError(m) => Toast(MailErrorText(m))
  }

  /**
   * The Submit button through to the mail outcome. The inputs are trimmed;
   * empty details stop here with a hint. Otherwise the record is written;
   * only a successful write stores it and sends the e-mail, whose outcome
   * adds a notice and changes nothing stored.
   */
  method Submit(complaintType: string, detailsInput: string, emailInput: string, phoneInput: string,
                timestamp: string, write: WriteOutcome, mail: MailOutcome)
    returns (stored: Option<ComplaintRecord>, sentEmail: Option<MaintainerEmail>, notices: seq<Notice>)
    ensures stored.Some? <==> !AllWhitespace(detailsInput) && write.WriteSucceeded?
    ensures stored.Some? ==>
              stored.value == NewComplaint(complaintType, Trim(detailsInput), timestamp, Trim(emailInput), Trim(phoneInput))
              && stored.value.details != [] && !IsWhitespace(stored.value.details[0])
    ensures sentEmail.Some? <==> stored.Some?
    ensures sentEmail.Some? ==>
              sentEmail.value == MaintainerEmail(Subject(complaintType), complaintType, Trim(detailsInput), timestamp,
                                                 ContactInfo(Trim(emailInput), Trim(phoneInput)))
    ensures AllWhitespace(detailsInput) ==> notices == [Toast(MissingDetails)]
    ensures !AllWhitespace(detailsInput) && write.WriteFailed? ==> notices == [Toast(SubmitFailed(write.message))]
    ensures stored.Some? ==> notices == [Toast(Submitted), Snackbar(Recorded), MailNotice(mail)]
  {
    var details := Trim(detailsInput);
    var email := Trim(emailInput);
    var phone := Trim(phoneInput);
    if details == [] {
      return None, None, [Toast(MissingDetails)];
    }
    var record := NewComplaint(complaintType, details, timestamp, email, phone);
    match write {
      case WriteFailed(m) =>
        return None, None, [Toast(SubmitFailed(m))];
      case WriteSucceeded =>
        stored := Some(record);
        var contact := BuildContactInfo(email, phone);
        sentEmail := Some(MaintainerEmail(Subject(complaintType), complaintType, details, timestamp, contact));
        // the mail is sent in the background, so its outcome is reported after the snackbar
        notices := [Toast(Submitted), Snackbar(Recorded), MailNotice(mail)];
    }
  }
}
