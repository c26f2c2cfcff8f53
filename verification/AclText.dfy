/** The textual form of an access control list: printed by get_acl, read by convert_simple_acl. */
module AclText {
  import opened Common

  const MAX_GRANTS := 100
  /** Size of the id, display name and email arrays. */
  const FIELD := 128

  datatype Permission = READ | WRITE | READ_ACP | WRITE_ACP | FULL_CONTROL

  datatype Grantee =
    | Email(address: string)
    | User(id: string, displayName: string)
    | AllAwsUsers
    | AllUsers
    | LogDelivery

  datatype Grant = Grant(grantee: Grantee, permission: Permission)

  datatype Acl = Acl(ownerId: string, ownerDisplayName: string, grants: seq<Grant>)

  // ---------- printing ----------

  function Rep(c: char, n: nat): (s: string)
    ensures |s| == n && forall i | 0 <= i < n :: s[i] == c
  {
    seq(n, _ => c)
  }

  /** %-<width>s */
  function Padded(s: string, width: nat): string {
    s + Rep(' ', if |s| < width then width - |s| else 0)
  }

  function Row(kind: string, id: string, perm: string): string {
    Padded(kind, 6) + "  " + Padded(id, 90) + "  " + Padded(perm, 12) + "\n"
  }

  function KindOf(g: Grantee): string {
    match g
    case Email(_) => "Email"
    case User(_, _) => "UserID"
    case _ => "Group"
  }

  function IdOf(g: Grantee): string {
    match g
    case Email(address) => address
    case User(id, displayName) => id + " (" + displayName + ")"
    case AllAwsUsers => "Authenticated AWS Users"
    case AllUsers => "All Users"
    case LogDelivery => "Log Delivery"
  }

  function PermOf(p: Permission): string {
    match p
    case READ => "READ"
    case WRITE => "WRITE"
    case READ_ACP => "READ_ACP"
    case WRITE_ACP => "WRITE_ACP"
    case FULL_CONTROL => "FULL_CONTROL"
  }

  function GrantRow(g: Grant): string {
    Row(KindOf(g.grantee), IdOf(g.grantee), PermOf(g.permission))
  }

  function GrantRows(grants: seq<Grant>): string {
    if grants == [] then "" else GrantRow(grants[0]) + GrantRows(grants[1..])
  }

  function Titles(): string {
    Row(" Type", Rep(' ', 35) + "User Identifier", " Permission")
  }

  function Dashes(): string {
    Rep('-', 6) + "  " + Rep('-', 90) + "  " + Rep('-', 12)
  }

  function Print(acl: Acl): string {
    "OwnerID " + acl.ownerId + " " + acl.ownerDisplayName + "\n" +
    (Titles() + (Dashes() + ("\n" + GrantRows(acl.grants))))
  }

  // ---------- parsing ----------

  predicate IsSpace(c: char) {
    c == ' ' || '\t' <= c <= '\r'
  }

  function SkipSpace(s: string): string {
    if s != "" && IsSpace(s[0]) then SkipSpace(s[1..]) else s
  }

  function SkipLine(s: string): string {
    if s != "" && s[0] != '\n' && s[0] != '\r' then SkipLine(s[1..]) else s
  }

  /**
    The characters up to the next space, at most max, and the rest; None if the terminator is
    reached first, which the loop of the program would run past.
   */
  function Token(s: string, max: nat): Option<(string, string)> {
    if max == 0 then Some(("", s))
    else if s == "" then None
    else if IsSpace(s[0]) then Some(("", s))
    else match Token(s[1..], max - 1)
      case None => None
      case Some((tok, rest)) => Some(([s[0]] + tok, rest))
  }

  datatype Outcome = Accepted(acl: Parsed) | Rejected | Overrun

  /** A permission that matches none of the names is left unset. */
  datatype ParsedGrant = ParsedGrant(grantee: Grantee, permission: Option<Permission>)

  datatype Parsed = Parsed(ownerId: string, ownerDisplayName: string, grants: seq<ParsedGrant>)

  datatype Step = Finished(outcome: Outcome) | Continue(rest: string, acl: Parsed)

  /** COPY_STRING: a field after at least some text; the array keeps max characters. */
  datatype Field = Copied(text: string, rest: string) | Missing | RanOver

  function CopyString(s: string, max: nat): Field {
    var t := SkipSpace(s);
    if t == "" then Missing
    else match Token(t, max)
      case None => RanOver
      case Some((tok, rest)) => Copied(tok, rest)
  }

  function Failure(f: Field): Step
    requires !f.Copied?
  {
    Finished(if f.Missing? then Rejected else Overrun)
  }

  function OwnerStep(s: string, acl: Parsed): Step {
    var id := CopyString(s, FIELD);
    if !id.Copied? then Failure(id)
    else if SkipSpace(id.rest) == "" then Finished(Rejected)
    else
      var name := CopyString(id.rest, FIELD);
      if !name.Copied? then Failure(name)
      else Continue(name.rest, acl.(ownerId := id.text, ownerDisplayName := name.text))
  }

  datatype GranteeStep = Bad(step: Step) | Good(grantee: Grantee, rest: string)

  function ParseGroup(t: string): GranteeStep {
    if "Authenticated AWS Users" <= t then Good(AllAwsUsers, t[23..])
    else if "All Users" <= t then Good(AllUsers, t[9..])
    else if "Log Delivery" <= t then Good(LogDelivery, t[12..])
    else Bad(Finished(Rejected))
  }

  /** The grantee that s starts with. */
  function ParseGrantee(s: string): GranteeStep {
    if "Email" <= s then
      var f := CopyString(s[5..], FIELD - 1);
      if f.Copied? then Good(Email(f.text), f.rest) else Bad(Failure(f))
    else if "UserID" <= s then
      var id := CopyString(s[6..], FIELD - 1);
      if !id.Copied? then Bad(Failure(id))
      else if SkipSpace(id.rest) == "" then Bad(Finished(Rejected))
      else
        var name := CopyString(id.rest, FIELD - 1);
        if name.Copied? then Good(User(id.text, name.text), name.rest) else Bad(Failure(name))
    else if "Group" <= s then
      ParseGroup(SkipSpace(s[5..]))
    else Bad(Finished(Rejected))
  }

  function ParsePermission(t: string): (Option<Permission>, string) {
    if "READ_ACP" <= t then (Some(READ_ACP), t[8..])
    else if "READ" <= t then (Some(READ), t[4..])
    else if "WRITE_ACP" <= t then (Some(WRITE_ACP), t[9..])
    else if "WRITE" <= t then (Some(WRITE), t[5..])
    else if "FULL_CONTROL" <= t then (Some(FULL_CONTROL), t[12..])
    else (None, t)
  }

  function GrantStep(s: string, acl: Parsed): Step {
    if |acl.grants| == MAX_GRANTS then Finished(Rejected)
    else match ParseGrantee(s)
      case Bad(step) => step
      case Good(grantee, rest) =>
        var t := SkipSpace(rest);
        if t == "" then Finished(Rejected)
        else
          var (perm, rest') := ParsePermission(t);
          Continue(rest', acl.(grants := acl.grants + [ParsedGrant(grantee, perm)]))
  }

  /** One round of the parser's loop on text that has been skipped to a non-space. */
  function LineStep(s: string, acl: Parsed): Step {
    if s == "" then Finished(Accepted(acl))
    else if "Type" <= s || s[0] == '-' then Continue(SkipLine(s), acl)
    else if "OwnerID" <= s then OwnerStep(s[7..], acl)
    else GrantStep(s, acl)
  }

  // ---------- every round consumes text ----------

  lemma SkipSpaceShrinks(s: string)
    ensures |SkipSpace(s)| <= |s| && (SkipSpace(s) != "" ==> !IsSpace(SkipSpace(s)[0]))
  {
  }

  lemma SkipLineShrinks(s: string)
    ensures |SkipLine(s)| <= |s|
    ensures s != "" && s[0] != '\n' && s[0] != '\r' ==> |SkipLine(s)| < |s|
  {
  }

  lemma TokenShrinks(s: string, max: nat)
    ensures Token(s, max).Some? ==> |Token(s, max).value.1| <= |s|
  {
  }

  lemma CopyShrinks(s: string, max: nat)
    ensures CopyString(s, max).Copied? ==> |CopyString(s, max).rest| <= |s|
  {
    SkipSpaceShrinks(s);
    TokenShrinks(SkipSpace(s), max);
  }

  lemma GranteeShrinks(s: string)
    ensures ParseGrantee(s).Good? ==> |ParseGrantee(s).rest| < |s|
    ensures ParseGrantee(s).Bad? ==> ParseGrantee(s).step.Finished?
  {
    if "Email" <= s {
      CopyShrinks(s[5..], FIELD - 1);
    } else if "UserID" <= s {
      CopyShrinks(s[6..], FIELD - 1);
      if CopyString(s[6..], FIELD - 1).Copied? {
        CopyShrinks(CopyString(s[6..], FIELD - 1).rest, FIELD - 1);
      }
    } else if "Group" <= s {
      SkipSpaceShrinks(s[5..]);
    }
  }

  lemma LineShrinks(s: string, acl: Parsed)
    requires s != "" ==> !IsSpace(s[0])
    ensures LineStep(s, acl).Continue? ==> |LineStep(s, acl).rest| < |s|
  {
    if s != "" {
      SkipLineShrinks(s);
      if "OwnerID" <= s {
        CopyShrinks(s[7..], FIELD);
        if CopyString(s[7..], FIELD).Copied? {
          CopyShrinks(CopyString(s[7..], FIELD).rest, FIELD);
        }
      }
      GranteeShrinks(s);
      if ParseGrantee(s).Good? {
        SkipSpaceShrinks(ParseGrantee(s).rest);
      }
    }
  }

  /** convert_simple_acl from some point on. */
  function ParseFrom(s: string, acl: Parsed): Outcome
    decreases |s|
  {
    var t := SkipSpace(s);
    SkipSpaceShrinks(s);
    LineShrinks(t, acl);
    match LineStep(t, acl)
    case Finished(outcome) => outcome
    case Continue(rest, acl') => ParseFrom(rest, acl')
  }

  function Parse(s: string): Outcome {
    ParseFrom(s, Parsed("", "", []))
  }

  // ---------- what the round trip needs ----------

  predicate Blank(s: string) {
    forall i | 0 <= i < |s| :: IsSpace(s[i])
  }

  predicate SpaceFree(s: string) {
    forall i | 0 <= i < |s| :: !IsSpace(s[i])
  }

  predicate OneLine(s: string) {
    '\n' !in s && '\r' !in s
  }

  predicate StartsBlank(s: string) {
    s != "" && IsSpace(s[0])
  }

  predicate Word(s: string) {
    s != "" && SpaceFree(s)
  }

  predicate FitsGrantee(g: Grantee) {
    match g
    case Email(address) => |address| < FIELD
    case User(id, displayName) => |id| < FIELD && |displayName| < FIELD
    case _ => true
  }

  /** The fields are strings held in the program's arrays. */
  predicate Fits(acl: Acl) {
    && |acl.ownerId| < FIELD
    && |acl.ownerDisplayName| < FIELD
    && |acl.grants| <= MAX_GRANTS
    && forall i | 0 <= i < |acl.grants| :: FitsGrantee(acl.grants[i].grantee)
  }

  predicate PlainGrantee(g: Grantee) {
    match g
    case Email(address) => Word(address)
    case User(id, displayName) => Word(id) && SpaceFree(displayName) && |displayName| <= FIELD - 3
    case _ => true
  }

  /** A caller can check this on the list before it prints it. */
  predicate Plain(acl: Acl) {
    && Word(acl.ownerId)
    && Word(acl.ownerDisplayName)
    && forall i | 0 <= i < |acl.grants| :: PlainGrantee(acl.grants[i].grantee)
  }

  function WrappedGrantee(g: Grantee): Grantee {
    match g
    case User(id, displayName) => User(id, "(" + displayName + ")")
    case _ => g
  }

  function WrappedGrant(g: Grant): ParsedGrant {
    ParsedGrant(WrappedGrantee(g.grantee), Some(g.permission))
  }

  function WrappedGrants(grants: seq<Grant>): (r: seq<ParsedGrant>)
    ensures |r| == |grants|
    ensures forall i | 0 <= i < |r| :: r[i] == WrappedGrant(grants[i])
  {
    seq(|grants|, i requires 0 <= i < |grants| => WrappedGrant(grants[i]))
  }

  /** The same list, except that users' display names come back in parentheses. */
  function Wrapped(acl: Acl): Parsed {
    Parsed(acl.ownerId, acl.ownerDisplayName, WrappedGrants(acl.grants))
  }

  // ---------- reading single pieces ----------

  lemma {:induction false} SkipBlank(ws: string, t: string)
    requires Blank(ws)
    requires !StartsBlank(t)
    ensures SkipSpace(ws + t) == t
  {
    if ws == "" {
      assert ws + t == t;
    } else {
      assert (ws + t)[1..] == ws[1..] + t;
      SkipBlank(ws[1..], t);
    }
  }

  lemma {:induction false} TokenWord(tok: string, t: string, max: nat)
    requires SpaceFree(tok) && |tok| <= max
    requires StartsBlank(t)
    ensures Token(tok + t, max) == Some((tok, t))
  {
    if tok == "" {
      assert tok + t == t;
    } else {
      var s := tok + t;
      assert s[1..] == tok[1..] + t && s[0] == tok[0];
      TokenWord(tok[1..], t, max - 1);
      assert [tok[0]] + tok[1..] == tok;
    }
  }

  lemma CopyWord(ws: string, tok: string, t: string, max: nat)
    requires Blank(ws) && Word(tok) && |tok| <= max
    requires StartsBlank(t)
    ensures CopyString(ws + (tok + t), max) == Copied(tok, t)
  {
    SkipBlank(ws, tok + t);
    TokenWord(tok, t, max);
  }

  lemma {:induction false} SkipRestOfLine(line: string, t: string)
    requires OneLine(line)
    requires t != "" && t[0] == '\n'
    ensures SkipLine(line + t) == t
  {
    if line == "" {
      assert line + t == t;
    } else {
      assert (line + t)[1..] == line[1..] + t;
      SkipRestOfLine(line[1..], t);
    }
  }

  lemma Differ(p: string, s: string, i: nat)
    requires i < |p| && i < |s| && p[i] != s[i]
    ensures !(p <= s)
  {
  }

  lemma Starts(p: string, t: string)
    ensures p <= p + t && (p + t)[|p|..] == t
  {
  }

  lemma ReadPermission(p: Permission, t: string)
    requires StartsBlank(t)
    ensures ParsePermission(PermOf(p) + t) == (Some(p), t)
  {
    Starts(PermOf(p), t);
    var s := PermOf(p) + t;
    match p
    case READ => Differ("READ_ACP", s, 4);
    case WRITE =>
      Differ("WRITE_ACP", s, 5);
      Differ("READ_ACP", s, 0);
      Differ("READ", s, 0);
    case READ_ACP =>
    case WRITE_ACP =>
      Differ("READ_ACP", s, 0);
      Differ("READ", s, 0);
    case FULL_CONTROL =>
      Differ("READ_ACP", s, 0);
      Differ("READ", s, 0);
      Differ("WRITE_ACP", s, 0);
      Differ("WRITE", s, 0);
  }

  lemma ReadEmail(address: string, ws: string, t: string)
    requires Word(address) && |address| < FIELD
    requires Blank(ws) && StartsBlank(t)
    ensures ParseGrantee("Email" + (ws + (address + t))) == Good(Email(address), t)
  {
    Starts("Email", ws + (address + t));
    CopyWord(ws, address, t, FIELD - 1);
  }

  lemma ReadUser(id: string, displayName: string, ws: string, t: string)
    requires PlainGrantee(User(id, displayName)) && |id| < FIELD
    requires Blank(ws) && StartsBlank(t)
    ensures ParseGrantee("UserID" + (ws + (IdOf(User(id, displayName)) + t)))
         == Good(WrappedGrantee(User(id, displayName)), t)
  {
    var name := "(" + displayName + ")";
    var s := "UserID" + (ws + (IdOf(User(id, displayName)) + t));
    assert IdOf(User(id, displayName)) + t == id + (" " + (name + t));
    Starts("UserID", ws + (id + (" " + (name + t))));
    Differ("Email", s, 0);
    CopyWord(ws, id, " " + (name + t), FIELD - 1);
    SkipBlank(" ", name + t);
    CopyWord(" ", name, t, FIELD - 1);
  }

  lemma ReadGroupName(g: Grantee, t: string)
    requires !g.Email? && !g.User?
    ensures ParseGroup(IdOf(g) + t) == Good(g, t)
  {
    Starts(IdOf(g), t);
    match g
    case AllAwsUsers =>
    case AllUsers => Differ("Authenticated AWS Users", IdOf(g) + t, 1);
    case LogDelivery =>
      Differ("Authenticated AWS Users", IdOf(g) + t, 0);
      Differ("All Users", IdOf(g) + t, 0);
  }

  lemma ReadGroup(g: Grantee, ws: string, t: string)
    requires !g.Email? && !g.User?
    requires Blank(ws)
    ensures ParseGrantee("Group" + (ws + (IdOf(g) + t))) == Good(g, t)
  {
    var name := IdOf(g) + t;
    assert !IsSpace(name[0]);
    var s := "Group" + (ws + name);
    Starts("Group", ws + name);
    Differ("Email", s, 0);
    Differ("UserID", s, 0);
    SkipBlank(ws, name);
    ReadGroupName(g, t);
  }

  lemma ReadGrantee(g: Grantee, ws: string, t: string)
    requires PlainGrantee(g) && FitsGrantee(g)
    requires Blank(ws) && StartsBlank(t)
    ensures ParseGrantee(KindOf(g) + (ws + (IdOf(g) + t))) == Good(WrappedGrantee(g), t)
  {
    match g
    case Email(address) => ReadEmail(address, ws, t);
    case User(id, displayName) => ReadUser(id, displayName, ws, t);
    case _ => ReadGroup(g, ws, t);
  }

  // ---------- reading lines ----------

  lemma OneRound(ws: string, line: string, acl: Parsed, t: string, acl': Parsed)
    requires Blank(ws) && line != "" && !IsSpace(line[0])
    requires LineStep(line, acl) == Continue(t, acl')
    ensures ParseFrom(ws + line, acl) == ParseFrom(t, acl')
  {
    SkipBlank(ws, line);
  }

  function Gap(s: string, width: nat): (gap: string)
    ensures StartsBlank(gap) && Blank(gap)
  {
    Rep(' ', if |s| < width then width - |s| else 0) + "  "
  }

  lemma PaddedThen(s: string, width: nat, rest: string)
    ensures Padded(s, width) + "  " + rest == s + (Gap(s, width) + rest)
  {
    var fill := Rep(' ', if |s| < width then width - |s| else 0);
    Regroup(s, fill, "  ");
    Regroup(s, fill + "  ", rest);
  }

  function End(perm: string): (gap: string)
    ensures StartsBlank(gap) && Blank(gap)
  {
    Rep(' ', if |perm| < 12 then 12 - |perm| else 0) + "\n"
  }

  /** A printed row is its three texts, each followed by spaces. */
  lemma RowThen(kind: string, id: string, perm: string, rest: string)
    ensures Row(kind, id, perm) + rest == kind + (Gap(kind, 6) + (id + (Gap(id, 90) + (perm + (End(perm) + rest)))))
  {
    var fill := Rep(' ', if |perm| < 12 then 12 - |perm| else 0);
    var last := perm + (End(perm) + rest);
    assert Padded(perm, 12) + "\n" + rest == last by {
      Regroup(perm, fill, "\n");
      Regroup(perm, End(perm), rest);
    }
    var k, i, p := Padded(kind, 6) + "  ", Padded(id, 90) + "  ", Padded(perm, 12);
    calc {
      Row(kind, id, perm) + rest;
      { Regroup(k, Padded(id, 90), "  "); }
      (((k + i) + p) + "\n") + rest;
      { Regroup(k + i, p, "\n"); }
      ((k + i) + (p + "\n")) + rest;
      { Regroup(k + i, p + "\n", rest); }
      (k + i) + last;
      { Regroup(k, i, last); }
      k + (i + last);
      { PaddedThen(id, 90, last); }
      k + (id + (Gap(id, 90) + last));
      { PaddedThen(kind, 6, id + (Gap(id, 90) + last)); }
      kind + (Gap(kind, 6) + (id + (Gap(id, 90) + last)));
    }
  }

  /** What one round makes of a grant line whose parts are known. */
  lemma GrantLine(s: string, g: Grantee, rest: string, after: string, perm: Permission, t: string, acl: Parsed)
    requires s != "" && s[0] != '-' && !("Type" <= s) && !("OwnerID" <= s)
    requires |acl.grants| < MAX_GRANTS
    requires ParseGrantee(s) == Good(g, rest)
    requires SkipSpace(rest) == after && after != ""
    requires ParsePermission(after) == (Some(perm), t)
    ensures LineStep(s, acl) == Continue(t, acl.(grants := acl.grants + [ParsedGrant(g, Some(perm))]))
  {
  }

  lemma KindStarts(g: Grantee, rest: string)
    ensures var s := KindOf(g) + rest; s != "" && s[0] != '-' && !IsSpace(s[0]) && !("Type" <= s) && !("OwnerID" <= s)
  {
    var s := KindOf(g) + rest;
    assert s[0] == KindOf(g)[0];
    Differ("Type", s, 0);
    Differ("OwnerID", s, 0);
  }

  lemma ReadRow(g: Grant, ws1: string, ws2: string, t: string, acl: Parsed)
    requires PlainGrantee(g.grantee) && FitsGrantee(g.grantee)
    requires |acl.grants| < MAX_GRANTS
    requires Blank(ws1) && Blank(ws2) && StartsBlank(ws2) && StartsBlank(t)
    ensures LineStep(KindOf(g.grantee) + (ws1 + (IdOf(g.grantee) + (ws2 + (PermOf(g.permission) + t)))), acl)
         == Continue(t, acl.(grants := acl.grants + [WrappedGrant(g)]))
  {
    var after := PermOf(g.permission) + t;
    var rest := ws2 + after;
    var s := KindOf(g.grantee) + (ws1 + (IdOf(g.grantee) + rest));
    KindStarts(g.grantee, ws1 + (IdOf(g.grantee) + rest));
    ReadGrantee(g.grantee, ws1, rest);
    SkipBlank(ws2, after);
    ReadPermission(g.permission, t);
    GrantLine(s, WrappedGrantee(g.grantee), rest, after, g.permission, t, acl);
  }

  lemma ReadFirstRow(ws: string, g: Grant, rest: string, acl: Parsed)
    requires Blank(ws)
    requires PlainGrantee(g.grantee) && FitsGrantee(g.grantee)
    requires |acl.grants| < MAX_GRANTS
    ensures ParseFrom(ws + (GrantRow(g) + rest), acl)
         == ParseFrom(End(PermOf(g.permission)) + rest, acl.(grants := acl.grants + [WrappedGrant(g)]))
  {
    var kind, id, perm := KindOf(g.grantee), IdOf(g.grantee), PermOf(g.permission);
    var t := End(perm) + rest;
    var body := Gap(kind, 6) + (id + (Gap(id, 90) + (perm + t)));
    RowThen(kind, id, perm, rest);
    KindStarts(g.grantee, body);
    ReadRow(g, Gap(kind, 6), Gap(id, 90), t, acl);
    OneRound(ws, kind + body, acl, t, acl.(grants := acl.grants + [WrappedGrant(g)]));
  }

  lemma ReadBlank(ws: string, acl: Parsed)
    requires Blank(ws)
    ensures ParseFrom(ws + "", acl) == Accepted(acl)
  {
    SkipBlank(ws, "");
  }

  lemma WrapFirst(done: seq<ParsedGrant>, grants: seq<Grant>)
    requires grants != []
    ensures done + [WrappedGrant(grants[0])] + WrappedGrants(grants[1..]) == done + WrappedGrants(grants)
  {
  }

  /** The parser reads rows one by one, each leaving its trailing spaces to the next round. */
  lemma {:induction false} ReadRows(ws: string, grants: seq<Grant>, acl: Parsed)
    requires Blank(ws)
    requires |acl.grants| + |grants| <= MAX_GRANTS
    requires forall i | 0 <= i < |grants| :: PlainGrantee(grants[i].grantee) && FitsGrantee(grants[i].grantee)
    ensures ParseFrom(ws + GrantRows(grants), acl) == Accepted(acl.(grants := acl.grants + WrappedGrants(grants)))
    decreases |grants|
  {
    if grants == [] {
      ReadBlank(ws, acl);
      assert acl.grants + WrappedGrants(grants) == acl.grants;
    } else {
      var g := grants[0];
      var acl' := acl.(grants := acl.grants + [WrappedGrant(g)]);
      ReadFirstRow(ws, g, GrantRows(grants[1..]), acl);
      ReadRows(End(PermOf(g.permission)), grants[1..], acl');
      WrapFirst(acl.grants, grants);
    }
  }

  lemma ReadOwner(id: string, name: string, t: string, acl: Parsed)
    requires Word(id) && Word(name) && |id| <= FIELD && |name| <= FIELD
    requires StartsBlank(t)
    ensures LineStep("OwnerID" + (" " + (id + (" " + (name + t)))), acl)
         == Continue(t, acl.(ownerId := id, ownerDisplayName := name))
  {
    var s := "OwnerID" + (" " + (id + (" " + (name + t))));
    Starts("OwnerID", " " + (id + (" " + (name + t))));
    Differ("Type", s, 0);
    CopyWord(" ", id, " " + (name + t), FIELD);
    SkipBlank(" ", name + t);
    CopyWord(" ", name, t, FIELD);
  }

  /** A line that starts with Type or a dash is skipped up to its end. */
  lemma ReadIgnored(ws: string, line: string, t: string, acl: Parsed)
    requires Blank(ws)
    requires "Type" <= line || (line != "" && line[0] == '-')
    requires OneLine(line)
    requires t != "" && t[0] == '\n'
    ensures ParseFrom(ws + (line + t), acl) == ParseFrom(t, acl)
  {
    assert (line + t)[0] == line[0];
    assert "Type" <= line ==> "Type" <= line + t;
    SkipRestOfLine(line, t);
    OneRound(ws, line + t, acl, t, acl);
  }

  function TitlesLine(): string {
    "Type" + ("   " + (Padded(Rep(' ', 35) + "User Identifier", 90) + "  " + Padded(" Permission", 12)))
  }

  lemma TitlesAreOneLine()
    ensures "Type" <= TitlesLine() && OneLine(TitlesLine())
  {
  }

  lemma TitlesText()
    ensures Titles() == " " + (TitlesLine() + "\n")
  {
    var user := Padded(Rep(' ', 35) + "User Identifier", 90) + "  ";
    var rest := user + Padded(" Permission", 12);
    Regroup("Type", "   " + rest, "\n");
    Regroup("   ", rest, "\n");
    assert Padded(" Type", 6) + "  " == " Type" + "   ";
    Regroup(" Type" + "   ", user, Padded(" Permission", 12));
    Regroup(" Type" + "   ", rest, "\n");
    Regroup(" Type", "   ", rest + "\n");
    assert " Type" == " " + "Type";
    Regroup(" ", "Type", "   " + (rest + "\n"));
  }

  lemma ReadTitles(t: string, acl: Parsed)
    ensures ParseFrom("\n" + (Titles() + t), acl) == ParseFrom("\n" + t, acl)
  {
    var line := TitlesLine();
    TitlesAreOneLine();
    TitlesText();
    Regroup(" ", line + "\n", t);
    Regroup(line, "\n", t);
    Regroup("\n", " ", line + ("\n" + t));
    ReadIgnored("\n" + " ", line, "\n" + t, acl);
  }

  lemma ReadDashes(t: string, acl: Parsed)
    ensures ParseFrom("\n" + (Dashes() + ("\n" + t)), acl) == ParseFrom("\n" + t, acl)
  {
    ReadIgnored("\n", Dashes(), "\n" + t, acl);
  }

  lemma ReadFirstLine(id: string, name: string, t: string)
    requires Word(id) && Word(name) && |id| <= FIELD && |name| <= FIELD
    ensures Parse("OwnerID " + id + " " + name + "\n" + t) == ParseFrom("\n" + t, Parsed(id, name, []))
  {
    var start := Parsed("", "", []);
    var line := "OwnerID" + (" " + (id + (" " + (name + ("\n" + t)))));
    assert "OwnerID " + id + " " + name + "\n" + t == line by {
      Regroup("OwnerID " + id + " " + name, "\n", t);
      Regroup("OwnerID " + id + " ", name, "\n" + t);
      Regroup("OwnerID " + id, " ", name + ("\n" + t));
      Regroup("OwnerID ", id, " " + (name + ("\n" + t)));
      assert "OwnerID " == "OwnerID" + " ";
      Regroup("OwnerID", " ", id + (" " + (name + ("\n" + t))));
    }
    ReadOwner(id, name, "\n" + t, start);
    assert "" + line == line && line[0] == 'O';
    OneRound("", line, start, "\n" + t, Parsed(id, name, []));
  }

  /** The text of a list whose fields are plain words is read back, display names wrapped. */
  lemma ReadsBack(acl: Acl)
    requires Fits(acl) && Plain(acl)
    ensures Parse(Print(acl)) == Accepted(Wrapped(acl))
  {
    var rows := GrantRows(acl.grants);
    var owned := Parsed(acl.ownerId, acl.ownerDisplayName, []);
    ReadFirstLine(acl.ownerId, acl.ownerDisplayName, Titles() + (Dashes() + ("\n" + rows)));
    ReadTitles(Dashes() + ("\n" + rows), owned);
    ReadDashes(rows, owned);
    ReadRows("\n", acl.grants, owned);
    assert [] + WrappedGrants(acl.grants) == WrappedGrants(acl.grants);
  }

  // ---------- the text fits the buffer it is read into ----------

  /** Size of the buffer set_acl reads the text into, one character of which ends it. */
  const TEXT_SIZE := 65536

  lemma RowLength(g: Grant)
    requires FitsGrantee(g.grantee)
    ensures |GrantRow(g)| <= 280
  {
    if g.grantee.User? {
      assert |IdOf(g.grantee)| == |g.grantee.id| + 2 + |g.grantee.displayName| + 1;
    }
    assert |IdOf(g.grantee)| <= 257 && |KindOf(g.grantee)| <= 6 && |PermOf(g.permission)| <= 12;
    RowLengths(KindOf(g.grantee), IdOf(g.grantee), PermOf(g.permission));
  }

  lemma RowLengths(kind: string, id: string, perm: string)
    requires |kind| <= 6 && |perm| <= 12
    ensures |Row(kind, id, perm)| == 23 + if |id| < 90 then 90 else |id|
  {
    assert |Padded(kind, 6)| == 6 && |Padded(perm, 12)| == 12;
    assert |Padded(id, 90)| == if |id| < 90 then 90 else |id|;
  }

  lemma {:induction false} RowsLength(grants: seq<Grant>)
    requires forall i | 0 <= i < |grants| :: FitsGrantee(grants[i].grantee)
    ensures |GrantRows(grants)| <= 280 * |grants|
  {
    if grants != [] {
      RowLength(grants[0]);
      RowsLength(grants[1..]);
    }
  }

  lemma HeadingLength()
    ensures |Titles()| == 113 && |Dashes()| == 112
  {
    RowLengths(" Type", Rep(' ', 35) + "User Identifier", " Permission");
  }

  lemma TextFits(acl: Acl)
    requires Fits(acl)
    ensures |Print(acl)| < TEXT_SIZE
  {
    RowsLength(acl.grants);
    HeadingLength();
  }

  // ---------- whatever is accepted is plain ----------

  predicate SoundGrantee(g: Grantee) {
    match g
    case Email(address) => Word(address) && |address| < FIELD
    case User(id, displayName) => Word(id) && |id| < FIELD && Word(displayName) && |displayName| < FIELD
    case _ => true
  }

  /**
    What every parsed list satisfies once its owner line has been read.  The owner's two words may
    be one character longer than their arrays hold.
   */
  predicate Sound(acl: Parsed) {
    && Word(acl.ownerId) && |acl.ownerId| <= FIELD
    && Word(acl.ownerDisplayName) && |acl.ownerDisplayName| <= FIELD
    && |acl.grants| <= MAX_GRANTS
    && forall i | 0 <= i < |acl.grants| :: SoundGrantee(acl.grants[i].grantee)
  }

  lemma {:induction false} TokenIsWord(s: string, max: nat)
    requires Token(s, max).Some?
    ensures SpaceFree(Token(s, max).value.0) && |Token(s, max).value.0| <= max
    ensures max > 0 && s != "" && !IsSpace(s[0]) ==> Token(s, max).value.0 != ""
  {
    if max > 0 && s != "" && !IsSpace(s[0]) {
      TokenIsWord(s[1..], max - 1);
    }
  }

  lemma CopiedIsWord(s: string, max: nat)
    requires max > 0 && CopyString(s, max).Copied?
    ensures Word(CopyString(s, max).text) && |CopyString(s, max).text| <= max
  {
    SkipSpaceShrinks(s);
    TokenIsWord(SkipSpace(s), max);
  }

  lemma GranteeIsSound(s: string)
    requires ParseGrantee(s).Good?
    ensures SoundGrantee(ParseGrantee(s).grantee)
  {
    if "Email" <= s {
      CopiedIsWord(s[5..], FIELD - 1);
    } else if "UserID" <= s {
      CopiedIsWord(s[6..], FIELD - 1);
      CopiedIsWord(CopyString(s[6..], FIELD - 1).rest, FIELD - 1);
    }
  }

  lemma OwnerIsSound(s: string, acl: Parsed)
    requires OwnerStep(s, acl).Continue?
    requires |acl.grants| <= MAX_GRANTS
    requires forall i | 0 <= i < |acl.grants| :: SoundGrantee(acl.grants[i].grantee)
    ensures Sound(OwnerStep(s, acl).acl)
  {
    CopiedIsWord(s, FIELD);
    CopiedIsWord(CopyString(s, FIELD).rest, FIELD);
  }

  lemma LineKeepsSound(s: string, acl: Parsed)
    requires Sound(acl)
    ensures LineStep(s, acl).Continue? ==> Sound(LineStep(s, acl).acl)
    ensures LineStep(s, acl).Finished? && LineStep(s, acl).outcome.Accepted? ==> LineStep(s, acl).outcome.acl == acl
  {
    GranteeShrinks(s);
    if LineStep(s, acl).Continue? && LineStep(s, acl).acl != acl {
      if "OwnerID" <= s {
        OwnerIsSound(s[7..], acl);
      } else {
        GranteeIsSound(s);
      }
    }
  }

  lemma {:induction false} ParseKeepsSound(s: string, acl: Parsed)
    requires Sound(acl)
    ensures ParseFrom(s, acl).Accepted? ==> Sound(ParseFrom(s, acl).acl)
    decreases |s|
  {
    var t := SkipSpace(s);
    SkipSpaceShrinks(s);
    LineShrinks(t, acl);
    LineKeepsSound(t, acl);
    if LineStep(t, acl).Continue? {
      ParseKeepsSound(LineStep(t, acl).rest, LineStep(t, acl).acl);
    }
  }

  /** Any text that begins with an owner line and is accepted gives a sound list. */
  lemma AcceptedIsSound(s: string)
    requires "OwnerID" <= s && Parse(s).Accepted?
    ensures Sound(Parse(s).acl)
  {
    var start := Parsed("", "", []);
    Differ("Type", s, 0);
    assert SkipSpace(s) == s;
    LineShrinks(s, start);
    assert LineStep(s, start) == OwnerStep(s[7..], start);
    if LineStep(s, start).Continue? {
      OwnerIsSound(s[7..], start);
      ParseKeepsSound(LineStep(s, start).rest, LineStep(s, start).acl);
    }
  }

  /**
    Printing then parsing gives the list back, wrapped, exactly when every field is a plain word
    and every user's display name leaves room for its parentheses.
   */
  lemma RoundTrip(acl: Acl)
    requires Fits(acl)
    ensures Parse(Print(acl)) == Accepted(Wrapped(acl)) <==> Plain(acl)
  {
    if Plain(acl) {
      ReadsBack(acl);
    } else if Parse(Print(acl)) == Accepted(Wrapped(acl)) {
      assert "OwnerID" <= "OwnerID " <= Print(acl);
      AcceptedIsSound(Print(acl));
      forall i | 0 <= i < |acl.grants| ensures PlainGrantee(acl.grants[i].grantee) {
        SoundIsPlain(acl.grants[i].grantee);
      }
    }
  }

  function Kept(acl: Acl): Parsed {
    Parsed(acl.ownerId, acl.ownerDisplayName,
           seq(|acl.grants|, i requires 0 <= i < |acl.grants| =>
             ParsedGrant(acl.grants[i].grantee, Some(acl.grants[i].permission))))
  }

  /** The list itself comes back only when it names no user: each trip adds a pair of parentheses. */
  lemma ExactWithoutUsers(acl: Acl)
    requires Fits(acl) && Plain(acl)
    ensures Parse(Print(acl)) == Accepted(Kept(acl)) <==>
      forall i | 0 <= i < |acl.grants| :: !acl.grants[i].grantee.User?
  {
    ReadsBack(acl);
    if i :| 0 <= i < |acl.grants| && acl.grants[i].grantee.User? {
      var name := acl.grants[i].grantee.displayName;
      assert |"(" + name + ")"| == |name| + 2;
      assert Wrapped(acl).grants[i] != Kept(acl).grants[i];
    } else {
      assert WrappedGrants(acl.grants) == Kept(acl).grants;
    }
  }

  lemma SoundIsPlain(g: Grantee)
    requires SoundGrantee(WrappedGrantee(g))
    ensures PlainGrantee(g)
  {
    if g.User? {
      var name := "(" + g.displayName + ")";
      assert forall i | 0 <= i < |g.displayName| :: g.displayName[i] == name[i + 1];
    }
  }
}
