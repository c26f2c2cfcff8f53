/**
  The texts themselves: what the parser and the printer of access control lists do with given
  characters and names.
 */
module AclLiterals {
  import opened AclText
  import opened Common

  // ---------- white space ----------

  /** The six characters of the C locale: space, \t, \n, \v, \f and \r. */
  const BLANKS: seq<char> := [' ', '\t', '\n', 11 as char, 12 as char, '\r']

  lemma SpaceIs(c: char)
    ensures IsSpace(c) <==> c in BLANKS
    ensures IsSpace(c) <==> c as int in {9, 10, 11, 12, 13, 32}
  {
  }

  predicate FreeOfBlanks(w: string) {
    forall i | 0 <= i < |w| :: w[i] !in BLANKS
  }

  lemma WordIs(w: string)
    ensures Word(w) <==> w != "" && FreeOfBlanks(w)
  {
    forall i | 0 <= i < |w| ensures IsSpace(w[i]) <==> w[i] in BLANKS {
      SpaceIs(w[i]);
    }
  }

  /** Any of the six separates an owner's words and ends the line. */
  lemma OwnerText(c: char, id: string, name: string)
    requires c in BLANKS && id != "" && name != "" && FreeOfBlanks(id) && FreeOfBlanks(name)
    requires |id| <= 128 && |name| <= 128
    ensures Parse("OwnerID" + ([c] + (id + ([c] + (name + [c]))))) == Accepted(Parsed(id, name, []))
  {
    var start := Parsed("", "", []);
    var after := [c] + (id + ([c] + (name + [c])));
    var line := "OwnerID" + after;
    SpaceIs(c);
    WordIs(id);
    WordIs(name);
    Starts("OwnerID", after);
    Differ("Type", line, 0);
    CopyWord([c], id, [c] + (name + [c]), FIELD);
    SkipBlank([c], name + [c]);
    CopyWord([c], name, [c], FIELD);
    OneRound("", line, start, [c], Parsed(id, name, []));
    ReadBlank([c], Parsed(id, name, []));
    assert "" + line == line && [c] + "" == [c];
  }

  /** And the parts of a grant. */
  lemma EmailText(c: char, address: string)
    requires c in BLANKS && address != "" && FreeOfBlanks(address) && |address| <= 127
    ensures Parse("Email" + ([c] + (address + ([c] + ("READ" + [c]))))) ==
      Accepted(Parsed("", "", [ParsedGrant(Email(address), Some(READ))]))
  {
    var start := Parsed("", "", []);
    var result := Parsed("", "", [ParsedGrant(Email(address), Some(READ))]);
    var line := "Email" + ([c] + (address + ([c] + ("READ" + [c]))));
    SpaceIs(c);
    WordIs(address);
    KindStarts(Email(address), [c] + (address + ([c] + ("READ" + [c]))));
    ReadEmail(address, [c], [c] + ("READ" + [c]));
    SkipBlank([c], "READ" + [c]);
    PermissionTexts([c]);
    GrantLine(line, Email(address), [c] + ("READ" + [c]), "READ" + [c], READ, [c], start);
    assert start.grants + [ParsedGrant(Email(address), Some(READ))] == result.grants;
    OneRound("", line, start, [c], result);
    ReadBlank([c], result);
    assert "" + line == line && [c] + "" == [c];
  }

  /** Every other character stays inside its word. */
  lemma OtherCharacter(c: char)
    requires c !in BLANKS
    ensures Parse("Email" + (" " + (['a', c, 'b'] + (" " + ("READ" + " "))))) ==
      Accepted(Parsed("", "", [ParsedGrant(Email(['a', c, 'b']), Some(READ))]))
  {
    assert FreeOfBlanks(['a', c, 'b']);
    EmailText(' ', ['a', c, 'b']);
  }

  // ---------- texts that are refused, and one that is not ----------

  lemma LastLine(line: string, acl: Parsed)
    requires line != "" && !IsSpace(line[0]) && LineStep(line, acl).Finished?
    ensures ParseFrom(line, acl) == LineStep(line, acl).outcome
  {
    assert SkipSpace(line) == line;
  }

  /** Nothing, an unknown kind, and kinds without what must follow. */
  lemma ShortTexts()
    ensures Parse("") == Accepted(Parsed("", "", []))
    ensures Parse("Foo") == Rejected
    ensures Parse("Email") == Rejected
    ensures Parse("UserID") == Rejected
    ensures Parse("Group") == Rejected
    ensures Parse("Group Foo") == Rejected
    ensures Parse("OwnerID") == Rejected
  {
    var start := Parsed("", "", []);
    LastLine("Foo", start);
    LastLine("Email", start);
    LastLine("UserID", start);
    LastLine("Group", start);
    SkipBlank(" ", "Foo");
    assert "Group Foo"[5..] == " " + "Foo" && " " + "Foo" == " Foo";
    LastLine("Group Foo", start);
    LastLine("OwnerID", start);
  }

  /** A user or an owner without a second word, and a grantee without a permission. */
  lemma CutTexts(w: string)
    requires w != "" && FreeOfBlanks(w) && |w| <= 127
    ensures Parse("OwnerID" + (" " + (w + " "))) == Rejected
    ensures Parse("UserID" + (" " + (w + " "))) == Rejected
    ensures Parse("Email" + (" " + (w + " "))) == Rejected
  {
    var start, after := Parsed("", "", []), " " + (w + " ");
    WordIs(w);
    BlankEnds();
    CopyWord(" ", w, " ", FIELD);
    CopyWord(" ", w, " ", FIELD - 1);
    Starts("OwnerID", after);
    LastLine("OwnerID" + after, start);
    Starts("UserID", after);
    LastLine("UserID" + after, start);
    Starts("Email", after);
    LastLine("Email" + after, start);
  }

  lemma BlankEnds()
    ensures SkipSpace(" ") == ""
  {
    SkipBlank(" ", "");
    assert " " + "" == " ";
  }

  /** An unknown permission is left unset, and the text goes on there as a new line. */
  lemma UnsetPermission(address: string, acl: Parsed, t: string)
    requires address != "" && FreeOfBlanks(address) && |address| <= 127 && |acl.grants| < 100
    requires ParsePermission(t) == (None, t) && t != "" && !IsSpace(t[0])
    ensures LineStep("Email" + (" " + (address + (" " + t))), acl) ==
      Continue(t, acl.(grants := acl.grants + [ParsedGrant(Email(address), None)]))
  {
    WordIs(address);
    KindStarts(Email(address), " " + (address + (" " + t)));
    ReadEmail(address, " ", " " + t);
    SkipBlank(" ", t);
  }

  lemma UnsetText(a: string, b: string)
    requires a != "" && b != "" && FreeOfBlanks(a) && FreeOfBlanks(b) && |a| <= 127 && |b| <= 127
    ensures Parse("Email" + (" " + (a + (" " + ("Email" + (" " + (b + (" " + ("READ" + " "))))))))) ==
      Accepted(Parsed("", "", [ParsedGrant(Email(a), None), ParsedGrant(Email(b), Some(READ))]))
  {
    var start, one := Parsed("", "", []), Parsed("", "", [ParsedGrant(Email(a), None)]);
    var two := Parsed("", "", [ParsedGrant(Email(a), None), ParsedGrant(Email(b), Some(READ))]);
    var second := "Email" + (" " + (b + (" " + ("READ" + " "))));
    NotAPermission(second);
    UnsetPermission(a, start, second);
    assert start.grants + [ParsedGrant(Email(a), None)] == one.grants;
    OneRound("", "Email" + (" " + (a + (" " + second))), start, second, one);
    SecondText(b, one);
    assert one.grants + [ParsedGrant(Email(b), Some(READ))] == two.grants;
    assert "" + ("Email" + (" " + (a + (" " + second)))) == "Email" + (" " + (a + (" " + second)));
  }

  lemma NotAPermission(t: string)
    requires t != "" && t[0] == 'E'
    ensures ParsePermission(t) == (None, t)
  {
    Differ("READ_ACP", t, 0);
    Differ("READ", t, 0);
    Differ("WRITE_ACP", t, 0);
    Differ("WRITE", t, 0);
    Differ("FULL_CONTROL", t, 0);
  }

  lemma SecondText(b: string, acl: Parsed)
    requires b != "" && FreeOfBlanks(b) && |b| <= 127 && |acl.grants| < 100
    ensures ParseFrom("Email" + (" " + (b + (" " + ("READ" + " ")))), acl) ==
      Accepted(acl.(grants := acl.grants + [ParsedGrant(Email(b), Some(READ))]))
  {
    var line := "Email" + (" " + (b + (" " + ("READ" + " "))));
    var acl' := acl.(grants := acl.grants + [ParsedGrant(Email(b), Some(READ))]);
    WordIs(b);
    KindStarts(Email(b), " " + (b + (" " + ("READ" + " "))));
    ReadEmail(b, " ", " " + ("READ" + " "));
    SkipBlank(" ", "READ" + " ");
    PermissionTexts(" ");
    GrantLine(line, Email(b), " " + ("READ" + " "), "READ" + " ", READ, " ", acl);
    OneRound("", line, acl, " ", acl');
    ReadBlank(" ", acl');
    assert "" + line == line && " " + "" == " ";
  }

  // ---------- names ----------

  /** The five permissions, each before white space. */
  lemma PermissionTexts(t: string)
    requires StartsBlank(t)
    ensures ParsePermission("READ" + t) == (Some(READ), t)
    ensures ParsePermission("WRITE" + t) == (Some(WRITE), t)
    ensures ParsePermission("READ_ACP" + t) == (Some(READ_ACP), t)
    ensures ParsePermission("WRITE_ACP" + t) == (Some(WRITE_ACP), t)
    ensures ParsePermission("FULL_CONTROL" + t) == (Some(FULL_CONTROL), t)
  {
    ReadPermission(READ, t);
    ReadPermission(WRITE, t);
    ReadPermission(READ_ACP, t);
    ReadPermission(WRITE_ACP, t);
    ReadPermission(FULL_CONTROL, t);
  }

  /** The three groups. */
  lemma GroupTexts(t: string)
    ensures ParseGroup("Authenticated AWS Users" + t) == Good(AllAwsUsers, t)
    ensures ParseGroup("All Users" + t) == Good(AllUsers, t)
    ensures ParseGroup("Log Delivery" + t) == Good(LogDelivery, t)
  {
    ReadGroupName(AllAwsUsers, t);
    ReadGroupName(AllUsers, t);
    ReadGroupName(LogDelivery, t);
  }

  /** The three kinds, read. */
  lemma KindTexts(id: string, name: string, t: string)
    requires id != "" && name != "" && FreeOfBlanks(id) && FreeOfBlanks(name) && |id| <= 127 && |name| <= 127
    requires StartsBlank(t)
    ensures ParseGrantee("Email" + (" " + (id + t))) == Good(Email(id), t)
    ensures ParseGrantee("UserID" + (" " + (id + (" " + (name + t))))) == Good(User(id, name), t)
    ensures ParseGrantee("Group" + (" " + ("All Users" + t))) == Good(AllUsers, t)
  {
    WordIs(id);
    WordIs(name);
    ReadEmail(id, " ", t);
    ReadUserPlain(id, name, t);
    ReadGroup(AllUsers, " ", t);
  }

  lemma ReadUserPlain(id: string, name: string, t: string)
    requires Word(id) && Word(name) && |id| <= 127 && |name| <= 127 && StartsBlank(t)
    ensures ParseGrantee("UserID" + (" " + (id + (" " + (name + t))))) == Good(User(id, name), t)
  {
    var s := "UserID" + (" " + (id + (" " + (name + t))));
    Starts("UserID", " " + (id + (" " + (name + t))));
    Differ("Email", s, 0);
    CopyWord(" ", id, " " + (name + t), FIELD - 1);
    SkipBlank(" ", name + t);
    CopyWord(" ", name, t, FIELD - 1);
  }

  // ---------- printing ----------

  /** A row in full: three columns of 6, 90 and 12 characters at least, two spaces between. */
  lemma RowText(kind: string, id: string, perm: string)
    requires |kind| <= 6 && |id| <= 90 && |perm| <= 12
    ensures Row(kind, id, perm) ==
      (kind + Rep(' ', 6 - |kind|)) + "  " + (id + Rep(' ', 90 - |id|)) + "  " + (perm + Rep(' ', 12 - |perm|)) + "\n"
  {
  }

  /** What stands in the columns. */
  lemma RowTexts(id: string, name: string)
    ensures GrantRow(Grant(Email(id), READ)) == Row("Email", id, "READ")
    ensures GrantRow(Grant(User(id, name), WRITE)) == Row("UserID", id + " (" + name + ")", "WRITE")
    ensures GrantRow(Grant(AllAwsUsers, READ_ACP)) == Row("Group", "Authenticated AWS Users", "READ_ACP")
    ensures GrantRow(Grant(AllUsers, WRITE_ACP)) == Row("Group", "All Users", "WRITE_ACP")
    ensures GrantRow(Grant(LogDelivery, FULL_CONTROL)) == Row("Group", "Log Delivery", "FULL_CONTROL")
  {
  }

  lemma HeadingTexts()
    ensures Titles() ==
      (" Type" + Rep(' ', 1)) + "  " + ((Rep(' ', 35) + "User Identifier") + Rep(' ', 40)) + "  " +
      (" Permission" + Rep(' ', 1)) + "\n"
    ensures Dashes() == Rep('-', 6) + "  " + Rep('-', 90) + "  " + Rep('-', 12)
  {
    RowText(" Type", Rep(' ', 35) + "User Identifier", " Permission");
  }

  /** A whole text: the owner, the heading, a row. */
  lemma SampleText(id: string, name: string)
    ensures Print(Acl(id, name, [Grant(AllUsers, READ)])) ==
      "OwnerID " + id + " " + name + "\n" + (Titles() + (Dashes() + ("\n" +
        (("Group" + Rep(' ', 1)) + "  " + ("All Users" + Rep(' ', 81)) + "  " + ("READ" + Rep(' ', 8)) + "\n"))))
  {
    OneRow(Grant(AllUsers, READ));
    RowText("Group", "All Users", "READ");
  }

  lemma OneRow(g: Grant)
    ensures GrantRows([g]) == GrantRow(g)
  {
    assert [g][1..] == [] && GrantRow(g) + "" == GrantRow(g);
  }

  // ---------- how many ----------

  /** One grant too many, however the 100 before it came about. */
  lemma FullList(ws: string, line: string, acl: Parsed)
    requires Blank(ws) && line != "" && !IsSpace(line[0]) && |acl.grants| == 100
    requires !("Type" <= line) && line[0] != '-' && !("OwnerID" <= line)
    ensures ParseFrom(ws + line, acl) == Rejected
  {
    SkipBlank(ws, line);
  }

  lemma {:induction false} RowsRejected(ws: string, grants: seq<Grant>, acl: Parsed)
    requires Blank(ws) && |acl.grants| <= 100 < |acl.grants| + |grants|
    requires forall i | 0 <= i < |grants| :: PlainGrantee(grants[i].grantee) && FitsGrantee(grants[i].grantee)
    ensures ParseFrom(ws + GrantRows(grants), acl) == Rejected
    decreases |grants|
  {
    var g, rest := grants[0], GrantRows(grants[1..]);
    if |acl.grants| == 100 {
      RowStarts(g, rest);
      FullList(ws, GrantRow(g) + rest, acl);
    } else {
      ReadFirstRow(ws, g, rest, acl);
      RowsRejected(End(PermOf(g.permission)), grants[1..], acl.(grants := acl.grants + [WrappedGrant(g)]));
    }
  }

  lemma RowStarts(g: Grant, rest: string)
    ensures var line := GrantRow(g) + rest;
      line != "" && !IsSpace(line[0]) && line[0] != '-' && !("Type" <= line) && !("OwnerID" <= line)
  {
    var kind, id, perm := KindOf(g.grantee), IdOf(g.grantee), PermOf(g.permission);
    RowThen(kind, id, perm, rest);
    KindStarts(g.grantee, Gap(kind, 6) + (id + (Gap(id, 90) + (perm + (End(perm) + rest)))));
  }

  /** A printed list of plain words is read back or refused by its length alone. */
  lemma AtMostAHundred(acl: Acl)
    requires Plain(acl) && |acl.ownerId| < FIELD && |acl.ownerDisplayName| < FIELD
    requires forall i | 0 <= i < |acl.grants| :: FitsGrantee(acl.grants[i].grantee)
    ensures Parse(Print(acl)) == if |acl.grants| <= 100 then Accepted(Wrapped(acl)) else Rejected
  {
    if |acl.grants| <= 100 {
      ReadsBack(acl);
    } else {
      var rows := GrantRows(acl.grants);
      var owned := Parsed(acl.ownerId, acl.ownerDisplayName, []);
      ReadFirstLine(acl.ownerId, acl.ownerDisplayName, Titles() + (Dashes() + ("\n" + rows)));
      ReadTitles(Dashes() + ("\n" + rows), owned);
      ReadDashes(rows, owned);
      RowsRejected("\n", acl.grants, owned);
    }
  }
}
