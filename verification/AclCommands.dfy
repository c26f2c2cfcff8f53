/** The loops of get_acl and convert_simple_acl, proved against the texts of AclText. */
module AclCommands {
  import opened AclText
  import opened Common

  /** get_acl's output: the owner line, the heading and one row per grant. */
  method PrintAcl(acl: Acl) returns (out: string)
    ensures out == Print(acl)
  {
    var first := "OwnerID " + acl.ownerId + " " + acl.ownerDisplayName + "\n";
    var heading := Titles() + (Dashes() + "\n");
    var rows := "";
    var i := 0;
    while i < |acl.grants|
      invariant 0 <= i <= |acl.grants|
      invariant rows + GrantRows(acl.grants[i..]) == GrantRows(acl.grants)
    {
      rows := AddRow(rows, acl.grants, i);
      i := i + 1;
    }
    out := first + (heading + rows);
    assert heading + rows == Titles() + (Dashes() + ("\n" + rows)) by {
      Regroup(Titles(), Dashes() + "\n", rows);
      Regroup(Dashes(), "\n", rows);
    }
  }

  method AddRow(rows: string, grants: seq<Grant>, i: nat) returns (rows': string)
    requires i < |grants|
    requires rows + GrantRows(grants[i..]) == GrantRows(grants)
    ensures rows' + GrantRows(grants[i + 1..]) == GrantRows(grants)
  {
    rows' := rows + GrantRow(grants[i]);
    assert grants[i..][1..] == grants[i + 1..];
    Regroup(rows, GrantRow(grants[i]), GrantRows(grants[i + 1..]));
  }

  datatype Verdict = Running | Done(outcome: Outcome)

  /** What a method did is what the step says. */
  predicate Did(step: Step, verdict: Verdict, rest: string, acl: Parsed) {
    match verdict
    case Running => step == Continue(rest, acl)
    case Done(outcome) => step == Finished(outcome)
  }

  /** The parser: a position in the text and the list filled so far. */
  class Parser {
    const text: string
    var pos: nat
    var ownerId: string
    var ownerDisplayName: string
    var grants: seq<ParsedGrant>

    constructor (text: string)
      ensures this.text == text && pos == 0
    {
      this.text := text;
      pos, ownerId, ownerDisplayName, grants := 0, "", "", [];
    }

    ghost predicate Valid()
      reads `pos
    {
      pos <= |text|
    }

    function Rest(): string
      requires Valid()
      reads `pos
    {
      text[pos..]
    }

    function Filled(): Parsed
      reads this
    {
      Parsed(ownerId, ownerDisplayName, grants)
    }

    /** SKIP_SPACE */
    method SkipSpaces()
      requires Valid()
      modifies `pos
      ensures Valid() && old(pos) <= pos && Rest() == SkipSpace(old(Rest()))
    {
      while pos < |text| && IsSpace(text[pos])
        invariant Valid() && old(pos) <= pos && SkipSpace(Rest()) == SkipSpace(old(Rest()))
      {
        assert Rest()[1..] == text[pos + 1..];
        pos := pos + 1;
      }
    }

    method SkipToLineEnd()
      requires Valid()
      modifies `pos
      ensures Valid() && old(pos) <= pos && Rest() == SkipLine(old(Rest()))
    {
      while pos < |text| && text[pos] != '\n' && text[pos] != '\r'
        invariant Valid() && old(pos) <= pos && SkipLine(Rest()) == SkipLine(old(Rest()))
      {
        assert Rest()[1..] == text[pos + 1..];
        pos := pos + 1;
      }
    }

    /** COPY_STRING_MAXLEN */
    method Copy(max: nat) returns (field: Field)
      requires Valid()
      modifies `pos
      ensures Valid()
      ensures field == CopyString(old(Rest()), max)
      ensures field.Copied? ==> field.rest == Rest()
    {
      SkipSpaces();
      if pos == |text| {
        return Missing;
      }
      ghost var start := Rest();
      var tok: string := "";
      PrefixedByNothing(Token(start, max));
      while |tok| < max && pos < |text| && !IsSpace(text[pos])
        invariant Valid() && |tok| <= max
        invariant Token(start, max) == Prefixed(tok, Token(Rest(), max - |tok|))
      {
        tok := Extend(tok, max);
      }
      if |tok| < max && pos == |text| {
        return RanOver;
      }
      assert Token(Rest(), max - |tok|) == Some(("", Rest()));
      assert tok + "" == tok;
      return Copied(tok, Rest());
    }

    /** field[len++] = *aclXml++ */
    method Extend(tok: string, max: nat) returns (tok': string)
      requires Valid() && pos < |text| && !IsSpace(text[pos]) && |tok| < max
      modifies `pos
      ensures Valid() && pos == old(pos) + 1
      ensures tok' == tok + [text[old(pos)]]
      ensures Prefixed(tok, Token(old(Rest()), max - |tok|)) == Prefixed(tok', Token(Rest(), max - |tok'|))
    {
      tok' := tok + [text[pos]];
      assert Rest()[1..] == text[pos + 1..];
      pos := pos + 1;
      ghost var after := Token(Rest(), max - |tok'|);
      if after.Some? {
        Regroup(tok, [text[old(pos)]], after.value.0);
      }
    }

    /** Whether the text goes on with this word; strncmp on the word's length. */
    predicate At(word: string)
      requires Valid()
      reads `pos
    {
      word <= Rest()
    }

    method Advance(n: nat)
      requires Valid() && pos + n <= |text|
      modifies `pos
      ensures Valid() && pos == old(pos) + n && Rest() == old(Rest())[n..]
    {
      pos := pos + n;
    }

    method OwnerLine() returns (verdict: Verdict)
      requires Valid()
      modifies `pos, `ownerId, `ownerDisplayName
      ensures Valid()
      ensures Did(OwnerStep(old(Rest()), old(Filled())), verdict, Rest(), Filled())
      ensures verdict.Done? ==> !verdict.outcome.Accepted?
    {
      var id := Copy(FIELD);
      if !id.Copied? {
        return Done(Failure(id).outcome);
      }
      SkipSpaces();
      if pos == |text| {
        return Done(Rejected);
      }
      var name := CopyAgain(id.rest, FIELD);
      if !name.Copied? {
        return Done(Failure(name).outcome);
      }
      ownerId, ownerDisplayName := id.text, name.text;
      return Running;
    }

    /** A copy after the spaces have already been skipped. */
    method CopyAgain(ghost from: string, max: nat) returns (field: Field)
      requires Valid() && Rest() == SkipSpace(from)
      modifies `pos
      ensures Valid()
      ensures field == CopyString(from, max)
      ensures field.Copied? ==> field.rest == Rest()
    {
      SkipTwice(from);
      field := Copy(max);
    }

    method UserGrantee() returns (result: GranteeStep)
      requires Valid() && At("UserID") && !At("Email")
      modifies `pos
      ensures Valid()
      ensures result == ParseGrantee(old(Rest()))
      ensures result.Good? ==> result.rest == Rest()
    {
      Advance(6);
      var id := Copy(FIELD - 1);
      if !id.Copied? {
        return Bad(Failure(id));
      }
      SkipSpaces();
      if pos == |text| {
        return Bad(Finished(Rejected));
      }
      var name := CopyAgain(id.rest, FIELD - 1);
      if !name.Copied? {
        return Bad(Failure(name));
      }
      return Good(User(id.text, name.text), name.rest);
    }

    method GroupName() returns (result: GranteeStep)
      requires Valid()
      modifies `pos
      ensures Valid()
      ensures result == ParseGroup(old(Rest()))
      ensures result.Good? ==> result.rest == Rest()
    {
      if At("Authenticated AWS Users") {
        Advance(23);
        return Good(AllAwsUsers, Rest());
      } else if At("All Users") {
        Advance(9);
        return Good(AllUsers, Rest());
      } else if At("Log Delivery") {
        Advance(12);
        return Good(LogDelivery, Rest());
      }
      return Bad(Finished(Rejected));
    }

    method GranteeText() returns (result: GranteeStep)
      requires Valid()
      modifies `pos
      ensures Valid()
      ensures result == ParseGrantee(old(Rest()))
      ensures result.Good? ==> result.rest == Rest()
    {
      if At("Email") {
        Advance(5);
        var address := Copy(FIELD - 1);
        return if address.Copied? then Good(Email(address.text), address.rest) else Bad(Failure(address));
      } else if At("UserID") {
        result := UserGrantee();
      } else if At("Group") {
        Advance(5);
        SkipSpaces();
        result := GroupName();
      } else {
        result := Bad(Finished(Rejected));
      }
    }

    method PermissionText() returns (permission: Option<Permission>)
      requires Valid()
      modifies `pos
      ensures Valid()
      ensures (permission, Rest()) == ParsePermission(old(Rest()))
    {
      permission := None;
      if At("READ_ACP") {
        permission := Some(READ_ACP);
        Advance(8);
      } else if At("READ") {
        permission := Some(READ);
        Advance(4);
      } else if At("WRITE_ACP") {
        permission := Some(WRITE_ACP);
        Advance(9);
      } else if At("WRITE") {
        permission := Some(WRITE);
        Advance(5);
      } else if At("FULL_CONTROL") {
        permission := Some(FULL_CONTROL);
        Advance(12);
      }
    }

    method GrantLine() returns (verdict: Verdict)
      requires Valid()
      modifies `pos, `grants
      ensures Valid()
      ensures Did(GrantStep(old(Rest()), old(Filled())), verdict, Rest(), Filled())
      ensures verdict.Done? ==> !verdict.outcome.Accepted?
    {
      if |grants| == MAX_GRANTS {
        return Done(Rejected);
      }
      var grantee := GranteeText();
      if grantee.Bad? {
        BadGrantee(old(Rest()));
        return Done(grantee.step.outcome);
      }
      SkipSpaces();
      if pos == |text| {
        return Done(Rejected);
      }
      var permission := PermissionText();
      grants := grants + [ParsedGrant(grantee.grantee, permission)];
      return Running;
    }

    /** One round of the loop, on text skipped to a non-space. */
    method Line() returns (verdict: Verdict)
      requires Valid()
      modifies `pos, `ownerId, `ownerDisplayName, `grants
      ensures Valid()
      ensures Did(LineStep(old(Rest()), old(Filled())), verdict, Rest(), Filled())
      ensures verdict.Done? && verdict.outcome.Accepted? ==> verdict.outcome.acl == Filled()
    {
      if pos == |text| {
        verdict := Done(Accepted(Filled()));
      } else if At("Type") || text[pos] == '-' {
        SkipToLineEnd();
        verdict := Running;
      } else if At("OwnerID") {
        Advance(7);
        verdict := OwnerLine();
      } else {
        verdict := GrantLine();
      }
    }

    /** convert_simple_acl */
    method Convert() returns (outcome: Outcome)
      requires pos == 0 && Filled() == Parsed("", "", [])
      modifies this
      ensures outcome == Parse(text)
      ensures outcome.Accepted? ==> outcome.acl == Filled()
    {
      var verdict := Running;
      assert Rest() == text;
      while verdict.Running?
        invariant Valid()
        invariant verdict.Running? ==> ParseFrom(Rest(), Filled()) == Parse(text)
        invariant verdict.Done? ==> verdict.outcome == Parse(text)
        invariant verdict.Done? ==> (verdict.outcome.Accepted? ==> verdict.outcome.acl == Filled())
        decreases if verdict.Running? then |Rest()| + 1 else 0
      {
        verdict := Round();
      }
      outcome := verdict.outcome;
    }

    method Round() returns (verdict: Verdict)
      requires Valid()
      modifies `pos, `ownerId, `ownerDisplayName, `grants
      ensures Valid()
      ensures verdict.Running? ==> |Rest()| < |old(Rest())|
      ensures verdict.Running? ==> ParseFrom(Rest(), Filled()) == ParseFrom(old(Rest()), old(Filled()))
      ensures verdict.Done? ==> verdict.outcome == ParseFrom(old(Rest()), old(Filled()))
      ensures verdict == Done(Accepted(Filled())) || !(verdict.Done? && verdict.outcome.Accepted?)
    {
      SkipSpaces();
      ghost var t, acl := Rest(), Filled();
      SkipSpaceShrinks(old(Rest()));
      LineShrinks(t, acl);
      verdict := Line();
    }
  }

  lemma BadGrantee(s: string)
    ensures ParseGrantee(s).Bad? ==> ParseGrantee(s).step.Finished? && !ParseGrantee(s).step.outcome.Accepted?
  {
    GranteeShrinks(s);
  }

  function Prefixed(tok: string, more: Option<(string, string)>): Option<(string, string)> {
    match more
    case None => None
    case Some((t, rest)) => Some((tok + t, rest))
  }

  lemma PrefixedByNothing(more: Option<(string, string)>)
    ensures Prefixed("", more) == more
  {
    if more.Some? {
      assert "" + more.value.0 == more.value.0;
    }
  }

  lemma SkipTwice(s: string)
    ensures SkipSpace(SkipSpace(s)) == SkipSpace(s)
  {
    SkipSpaceShrinks(s);
  }
}
