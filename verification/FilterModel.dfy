/**
 Messages, conditions and rules of the mail filter: what it means for a rule to
 fire. Regular expressions and attachment readers are parameters.
 */
module FilterModel {
  import opened Prelude
  import opened Text

  datatype Attachment = Attachment(filename: string, contentType: string, size: int, data: string, text: string)

  datatype Message = Message(from: string, to: seq<string>, cc: seq<string>, bcc: seq<string>, subject: string,
                             html: string, text: string, headers: map<string, seq<string>>,
                             attachments: seq<Attachment>, size: int, provider: string, spf: string, dkim: string,
                             dmarc: string)

  datatype Field =
    | From | To | Cc | Bcc | AnyRecipient | Subject | Body | SubjectOrBody | Header
    | AttachmentName | AttachmentExtension | AttachmentText | AttachmentCount | AttachmentSize | TotalAttachmentSize
    | MessageSize | RecipientCount | HasAttachment | HasExecutableAttachment | Provider | Spf | Dkim | Dmarc
    | UnknownField(name: string)

  datatype Operator = OpContains | OpMatches | OpEquals | OpDomainIs | OpIn | OpGreaterOrEqual | OpIsTrue | OpExists
    | UnknownOp(name: string)

  // `compiled` holds the patterns a validated condition searches for.
  datatype Condition = Condition(field: Field, op: Operator, values: seq<string>, header: string, number: int,
                                 compiled: seq<string>)

  datatype Rule = Rule(id: string, name: string, direction: Direction, action: Action, priority: int, enabled: bool,
                       conditions: seq<Condition>, exceptions: seq<Condition>)

  // What foreign code decides: pattern search, and reading attachments.
  datatype Env = Env(search: (string, string) -> bool, supported: (string, string) -> bool,
                     extract: (string, string, string) -> string)

  /******* What a condition can ask *******/

  // The extension with its dot: from the last dot of the last path element.
  function ExtensionOf(name: string): string {
    if name == "" || name[|name| - 1] == '/' then ""
    else if name[|name| - 1] == '.' then "."
    else
      var e := ExtensionOf(name[..|name| - 1]);
      if e == "" then "" else e + [name[|name| - 1]]
  }

  function Extension(a: Attachment): string {
    var e := Lower(ExtensionOf(a.filename));
    if HasPrefix(e, ".") then e[1..] else e
  }

  const EXECUTABLE_EXTENSIONS: set<string> :=
    {"exe", "com", "bat", "cmd", "msi", "scr", "pif", "cpl", "jar", "js", "jse", "vbs", "vbe", "wsf", "wsh", "ps1",
     "psm1", "sh", "bash", "app", "dmg", "pkg", "deb", "rpm", "apk", "dll", "so", "reg", "lnk", "hta", "chm", "iso",
     "img", "vhd"}

  predicate IsExecutable(a: Attachment) { Extension(a) in EXECUTABLE_EXTENSIONS }

  function KeyOf(address: string): string { Lower(Trim(address)) }

  // Every address once, by its first spelling, blank ones left out.
  function Distinct(addresses: seq<string>): seq<string> {
    if addresses == [] then []
    else
      var before, last := Distinct(addresses[..|addresses| - 1]), addresses[|addresses| - 1];
      if KeyOf(last) == "" || Seen(before, KeyOf(last)) then before else before + [last]
  }

  predicate Seen(addresses: seq<string>, key: string) {
    exists i :: 0 <= i < |addresses| && KeyOf(addresses[i]) == key
  }

  function Recipients(m: Message): seq<string> { Distinct(m.to + m.cc + m.bcc) }

  function HeaderValues(m: Message, name: string): seq<string> {
    var key := Lower(Trim(name));
    if key in m.headers then m.headers[key] else []
  }

  function TotalSize(attachments: seq<Attachment>): int {
    if attachments == [] then 0 else TotalSize(attachments[..|attachments| - 1]) + attachments[|attachments| - 1].size
  }

  function LargestSize(attachments: seq<Attachment>): int {
    if attachments == [] then 0
    else
      var before, last := LargestSize(attachments[..|attachments| - 1]), attachments[|attachments| - 1].size;
      if last > before then last else before
  }

  function Number(c: Condition, m: Message): int {
    match c.field
    case AttachmentCount => |m.attachments|
    case AttachmentSize => LargestSize(m.attachments)
    case TotalAttachmentSize => TotalSize(m.attachments)
    case MessageSize => m.size
    case RecipientCount => |Recipients(m)|
    case _ => 0
  }

  function Names(attachments: seq<Attachment>): seq<string> {
    seq(|attachments|, i requires 0 <= i < |attachments| => attachments[i].filename)
  }

  function Extensions(attachments: seq<Attachment>): seq<string> {
    seq(|attachments|, i requires 0 <= i < |attachments| => Extension(attachments[i]))
  }

  function Texts(attachments: seq<Attachment>): seq<string> {
    seq(|attachments|, i requires 0 <= i < |attachments| => attachments[i].text)
  }

  // The strings a condition tests against.
  function Subjects(c: Condition, m: Message): seq<string> {
    match c.field
    case From => [m.from]
    case To => m.to
    case Cc => m.cc
    case Bcc => m.bcc
    case AnyRecipient => Recipients(m)
    case Subject => [m.subject]
    case Body => [m.html, m.text]
    case SubjectOrBody => [m.subject, m.html, m.text]
    case AttachmentName => Names(m.attachments)
    case AttachmentExtension => Extensions(m.attachments)
    case AttachmentText => Texts(m.attachments)
    case Provider => [m.provider]
    case Spf => [m.spf]
    case Dkim => [m.dkim]
    case Dmarc => [m.dmarc]
    case _ => []
  }

  // "example.com" is its own domain and that of its subdomains.
  predicate DomainMatches(address: string, domain: string) {
    match LastIndexOf(address, '@')
    case None => false
    case Some(at) =>
      var host := TrimMarks(address[at + 1..]);
      host == domain || HasSuffix(host, "." + domain)
  }

  predicate IsMark(c: char) { c == '>' || c == ' ' }

  function TrimMarks(s: string): string
    decreases |s|
  {
    if s == "" then ""
    else if IsMark(s[0]) then TrimMarks(s[1..])
    else if IsMark(s[|s| - 1]) then TrimMarks(s[..|s| - 1])
    else s
  }

  predicate ValueMatches(op: Operator, lowered: string, value: string) {
    var wanted := Lower(Trim(value));
    && wanted != ""
    && match op
       case OpContains => Contains(lowered, wanted)
       case OpEquals => lowered == wanted
       case OpIn => lowered == wanted
       case OpDomainIs => DomainMatches(lowered, wanted)
       case _ => false
  }

  predicate SubjectMatches(env: Env, c: Condition, subject: string) {
    && subject != ""
    && if c.op == OpMatches then exists i :: 0 <= i < |c.compiled| && env.search(c.compiled[i], subject)
       else exists i :: 0 <= i < |c.values| && ValueMatches(c.op, Lower(subject), c.values[i])
  }

  predicate AnySubjectMatches(env: Env, c: Condition, subjects: seq<string>) {
    exists i :: 0 <= i < |subjects| && SubjectMatches(env, c, subjects[i])
  }

  predicate IsNumeric(f: Field) {
    f.AttachmentCount? || f.AttachmentSize? || f.TotalAttachmentSize? || f.MessageSize? || f.RecipientCount?
  }

  predicate ConditionHolds(env: Env, c: Condition, m: Message) {
    if c.field == HasAttachment then |m.attachments| > 0
    else if c.field == HasExecutableAttachment then
      exists i :: 0 <= i < |m.attachments| && IsExecutable(m.attachments[i])
    else if IsNumeric(c.field) then Number(c, m) >= c.number
    else if c.field == Header then
      if c.op == OpExists then |HeaderValues(m, c.header)| > 0 else AnySubjectMatches(env, c, HeaderValues(m, c.header))
    else AnySubjectMatches(env, c, Subjects(c, m))
  }

  // Every condition holds and no exception does.
  predicate Fires(env: Env, r: Rule, m: Message) {
    && r.enabled
    && (forall i :: 0 <= i < |r.conditions| ==> ConditionHolds(env, r.conditions[i], m))
    && (forall i :: 0 <= i < |r.exceptions| ==> !ConditionHolds(env, r.exceptions[i], m))
  }

  /******* Recipients *******/

  // Each nonblank address is listed once, by its first spelling.
  lemma {:induction false} DistinctIsExact(addresses: seq<string>)
    ensures forall i, j :: 0 <= i < j < |Distinct(addresses)| ==>
            KeyOf(Distinct(addresses)[i]) != KeyOf(Distinct(addresses)[j])
    ensures forall k :: Seen(Distinct(addresses), k) <==> k != "" && Seen(addresses, k)
  {
    if addresses == [] {
    } else {
      var n := |addresses| - 1;
      var init, last := addresses[..n], addresses[n];
      DistinctIsExact(init);
      var before, after := Distinct(init), Distinct(addresses);
      hide KeyOf, Distinct;
      assert after == if KeyOf(last) == "" || Seen(before, KeyOf(last)) then before else before + [last] by {
        DistinctUnfolds(addresses);
      }
      forall k ensures Seen(after, k) <==> k != "" && Seen(addresses, k) {
        SeenMore(init, last, k);
        SeenMore(before, last, k);
        assert addresses == init + [last];
      }
    }
  }

  lemma {:induction false} DistinctUnfolds(addresses: seq<string>)
    requires addresses != []
    ensures var n := |addresses| - 1;
            var before := Distinct(addresses[..n]);
            Distinct(addresses) ==
              if KeyOf(addresses[n]) == "" || Seen(before, KeyOf(addresses[n])) then before
              else before + [addresses[n]]
  {
  }

  lemma {:induction false} SeenMore(init: seq<string>, last: string, k: string)
    ensures Seen(init + [last], k) <==> Seen(init, k) || KeyOf(last) == k
  {
    hide KeyOf;
    var all := init + [last];
    assert all[|init|] == last;
    if i :| 0 <= i < |init| && KeyOf(init[i]) == k { assert all[i] == init[i]; }
    if i :| 0 <= i < |all| && KeyOf(all[i]) == k { if i < |init| { assert init[i] == all[i]; } }
  }

  /******* Extensions and domains *******/

  // The extension is what follows the last dot of the last path element.
  lemma {:induction false} ExtensionFollowsLastDot(base: string, ext: string)
    requires '.' !in ext && '/' !in ext
    ensures ExtensionOf(base + "." + ext) == "." + ext
  {
    var all := base + "." + ext;
    if ext == "" {
    } else {
      var n := |ext| - 1;
      assert all[..|all| - 1] == base + "." + ext[..n] && ext[n] in ext;
      ExtensionFollowsLastDot(base, ext[..n]);
    }
  }

  lemma {:induction false} NoDotNoExtension(directory: string, file: string)
    requires '.' !in file && '/' !in file && (directory == "" || directory[|directory| - 1] == '/')
    ensures ExtensionOf(directory + file) == ""
  {
    if file == "" {
      assert directory + file == directory;
    } else {
      var all, n := directory + file, |file| - 1;
      assert all[..|all| - 1] == directory + file[..n] && file[n] in file;
      NoDotNoExtension(directory, file[..n]);
    }
  }

  lemma {:induction false} MarksAreTrimmed(host: string, tail: string)
    requires host != "" ==> !IsMark(host[0]) && !IsMark(host[|host| - 1])
    requires forall i :: 0 <= i < |tail| ==> IsMark(tail[i])
    ensures TrimMarks(host + tail) == host
    decreases |tail|
  {
    var all, n := host + tail, |tail| - 1;
    if tail == "" {
      assert all == host;
    } else if host == "" {
      assert all[1..] == host + tail[1..];
      MarksAreTrimmed(host, tail[1..]);
    } else {
      assert all[..|all| - 1] == host + tail[..n];
      MarksAreTrimmed(host, tail[..n]);
    }
  }

  lemma {:induction false} SuffixIsSubdomain(host: string, domain: string)
    ensures HasSuffix(host, "." + domain) <==> exists sub :: host == sub + "." + domain
  {
    var ending := "." + domain;
    if HasSuffix(host, ending) {
      var sub := host[..|host| - |ending|];
      assert host == sub + "." + domain;
    }
    if sub: string :| host == sub + "." + domain {
      assert host == sub + ending && host[|host| - |ending|..] == ending;
    }
  }

  // An address is of a domain when its host is that domain or ends in it on
  // a label boundary, also in angle brackets.
  lemma {:induction false} DomainIsWholeLabels(local: string, host: string, tail: string, domain: string)
    requires '@' !in host && (host != "" ==> !IsMark(host[0]) && !IsMark(host[|host| - 1]))
    requires forall i :: 0 <= i < |tail| ==> IsMark(tail[i])
    ensures DomainMatches(local + ['@'] + (host + tail), domain) <==>
            host == domain || exists sub :: host == sub + "." + domain
  {
    LastSplit(local, '@', host + tail);
    MarksAreTrimmed(host, tail);
    SuffixIsSubdomain(host, domain);
    hide TrimMarks, LastIndexOf, HasSuffix;
  }
}
