/** `EmailConfiguration`: how and to whom the report is mailed, normalised by the constructor and
    checked when the report sender is built. */
module EmailConfiguration {
  import opened Wrappers
  import opened Numbers
  import Text
  import Parser

  /** An e-mail configuration. `username` and `password` may be null. */
  datatype EmailConfig = EmailConfig(
    smtpServerName: string,
    senderAddress: string,
    senderName: string,
    portNumber: Int32,
    maxIdleTime: Int32,
    useWindowsCredentials: bool,
    useSsl: bool,
    recipients: seq<string>,
    recipientsAsString: string,
    subject: string,
    templateFile: string,
    username: Option<string>,
    password: Option<string>)

  /** What every constructed configuration satisfies: the text settings carry no surrounding
      white space, every recipient is a clean address, and the string form of the recipients is
      the list joined with `;`, which parses back to the list. */
  predicate Normalised(c: EmailConfig) {
    && Text.IsTrimmed(c.smtpServerName) && Text.IsTrimmed(c.senderAddress) && Text.IsTrimmed(c.senderName)
    && Text.IsTrimmed(c.subject) && Text.IsTrimmed(c.templateFile)
    && (forall x :: x in c.recipients ==> Parser.IsRecipient(x))
    && c.recipientsAsString == Text.Join(";", c.recipients)
    && Parser.ParseRecipientsToList(Some(c.recipientsAsString)) == c.recipients
  }

  /** The recipients as the constructor stores them: the parsed list, and that list joined with
      `;`, which parses back to the same list. */
  function Recipients(recipients: Option<string>): (r: (seq<string>, string))
    ensures r.0 == Parser.ParseRecipientsToList(recipients)
    ensures r.1 == Text.Join(";", r.0)
    ensures Parser.ParseRecipientsToList(Some(r.1)) == r.0
  {
    var list := Parser.ParseRecipientsToList(recipients);
    Parser.RecipientsRoundTrip(recipients);
    Parser.StringOfRecipients(list);
    (list, Parser.ParseRecipientsToString(Some(Parser.AsEntries(list))))
  }

  /** The constructor: the server, sender, subject and template settings are trimmed (null
      becomes ""), the recipients are parsed from their `;`-separated form and printed back,
      and the remaining settings are stored as given; the credentials are not trimmed. */
  function Create(
    smtpServerName: Option<string>,
    senderAddress: Option<string>,
    senderName: Option<string>,
    portNumber: Int32,
    maxIdleTime: Int32,
    useWindowsCredentials: bool,
    recipients: Option<string>,
    subject: Option<string>,
    username: Option<string>,
    password: Option<string>,
    templateFile: Option<string>,
    useSsl: bool): (c: EmailConfig)
    ensures Normalised(c)
    ensures c.recipients == Parser.ParseRecipientsToList(recipients)
    ensures c.username == username && c.password == password
    ensures c.portNumber == portNumber && c.maxIdleTime == maxIdleTime
    ensures c.useWindowsCredentials == useWindowsCredentials && c.useSsl == useSsl
    ensures Parser.TrimmedFrom(smtpServerName, c.smtpServerName) && Parser.TrimmedFrom(senderAddress, c.senderAddress)
    ensures Parser.TrimmedFrom(senderName, c.senderName) && Parser.TrimmedFrom(subject, c.subject)
    ensures Parser.TrimmedFrom(templateFile, c.templateFile)
  {
    var (list, asString) := Recipients(recipients);
    EmailConfig(
      Parser.TrimLineOrReturnStringEmptyIfNull(smtpServerName),
      Parser.TrimLineOrReturnStringEmptyIfNull(senderAddress),
      Parser.TrimLineOrReturnStringEmptyIfNull(senderName),
      portNumber,
      maxIdleTime,
      useWindowsCredentials,
      useSsl,
      list,
      asString,
      Parser.TrimLineOrReturnStringEmptyIfNull(subject),
      Parser.TrimLineOrReturnStringEmptyIfNull(templateFile),
      username,
      password)
  }

  /** `String.IsNullOrEmpty`. */
  predicate NullOrEmpty(s: Option<string>) {
    s.None? || s.value == ""
  }

  /** How the SMTP client authenticates: with the process's Windows credentials, anonymously,
      or with an explicit user name and password. */
  datatype CredentialMode = WindowsCredentials | Anonymous | Explicit(username: string, password: string)

  /** The SMTP sender `GetReportSender` builds. */
  datatype SmtpSettings = SmtpSettings(
    server: string,
    port: Int32,
    credentials: CredentialMode,
    maxIdleTime: Int32,
    useSsl: bool,
    senderAddress: string,
    senderName: string,
    recipients: seq<string>)

  const PasswordRequired := "Password cannot be empty when using username/password authentication"
  const SenderRequired := "Sender address cannot be empty."
  const RecipientRequired := "A recipient must be specified."
  const ServerRequired := "Smtp server has to be defined."

  /** A user name without Windows credentials needs a password. */
  predicate PasswordMissing(c: EmailConfig) {
    !NullOrEmpty(c.username) && !c.useWindowsCredentials && NullOrEmpty(c.password)
  }

  /** `GetReportSender`: four checks in a fixed order, the first that fails giving the error;
      then the credentials are chosen. */
  function GetReportSender(c: EmailConfig): (r: Result<SmtpSettings, string>)
    ensures PasswordMissing(c) ==> r == Failure(PasswordRequired)
    ensures !PasswordMissing(c) && c.senderAddress == "" ==> r == Failure(SenderRequired)
    ensures !PasswordMissing(c) && c.senderAddress != "" && c.recipients == [] ==> r == Failure(RecipientRequired)
    ensures !PasswordMissing(c) && c.senderAddress != "" && c.recipients != [] && c.smtpServerName == ""
            ==> r == Failure(ServerRequired)
    ensures r.Success? <==>
              !PasswordMissing(c) && c.senderAddress != "" && c.recipients != [] && c.smtpServerName != ""
    ensures r.Success? ==>
              && r.value.server == c.smtpServerName && r.value.port == c.portNumber
              && r.value.senderAddress == c.senderAddress && r.value.recipients == c.recipients
    ensures r.Success? ==> (r.value.credentials.Explicit? <==> !NullOrEmpty(c.username) && !c.useWindowsCredentials)
    ensures r.Success? && r.value.credentials.Explicit? ==>
              && Some(r.value.credentials.username) == c.username && r.value.credentials.username != ""
              && Some(r.value.credentials.password) == c.password && r.value.credentials.password != ""
    ensures r.Success? ==> (r.value.credentials == WindowsCredentials <==> c.useWindowsCredentials)
  {
    if PasswordMissing(c) then Failure(PasswordRequired)
    else if c.senderAddress == "" then Failure(SenderRequired)
    else if c.recipients == [] then Failure(RecipientRequired)
    else if c.smtpServerName == "" then Failure(ServerRequired)
    else
      var mode :=
        if NullOrEmpty(c.username) || c.useWindowsCredentials then
          (if c.useWindowsCredentials then WindowsCredentials else Anonymous)
        else Explicit(c.username.value, c.password.value);
      Success(SmtpSettings(c.smtpServerName, c.portNumber, mode, c.maxIdleTime, c.useSsl,
                           c.senderAddress, c.senderName, c.recipients))
  }

  /** A server name of white space alone is cut to "" by the constructor, so building the sender
      fails; if nothing earlier fails, it fails for the missing server. */
  lemma BlankServerIsRejected(server: string,
    senderAddress: Option<string>, senderName: Option<string>, portNumber: Int32, maxIdleTime: Int32,
    useWindowsCredentials: bool, recipients: Option<string>, subject: Option<string>,
    username: Option<string>, password: Option<string>, templateFile: Option<string>, useSsl: bool)
    requires Text.AllWhiteSpace(server)
    ensures var c := Create(Some(server), senderAddress, senderName, portNumber, maxIdleTime,
                            useWindowsCredentials, recipients, subject, username, password, templateFile, useSsl);
            && GetReportSender(c).Failure?
            && (!PasswordMissing(c) && c.senderAddress != "" && c.recipients != [] ==>
                  GetReportSender(c) == Failure(ServerRequired))
  {
    Text.TrimEmptyIffWhiteSpace(server);
  }

  /** A sender built from a constructed configuration mails clean addresses, and the recipient
      string shown in the run result names exactly these recipients. */
  lemma SenderOfConstructedConfiguration(c: EmailConfig)
    requires Normalised(c)
    requires GetReportSender(c).Success?
    ensures forall x :: x in GetReportSender(c).value.recipients ==> Parser.IsRecipient(x)
    ensures Parser.ParseRecipientsToList(Some(c.recipientsAsString)) == GetReportSender(c).value.recipients
    ensures Text.IsTrimmed(GetReportSender(c).value.server) && GetReportSender(c).value.server != ""
  {
  }
}
