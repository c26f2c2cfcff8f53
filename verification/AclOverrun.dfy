/**
  When the parser of access control lists runs past the end of its text: its copying loop stops at
  white space or at a full array, but not at the terminator.
 */
module AclOverrun {
  import opened AclText
  import opened Common

  predicate EndsBlank(s: string) {
    s == "" || IsSpace(s[|s| - 1])
  }

  // ---------- texts that end in white space ----------

  lemma Tail(s: string, n: nat)
    requires EndsBlank(s) && n <= |s|
    ensures EndsBlank(s[n..])
  {
  }

  lemma {:induction false} SkipSpaceEndsBlank(s: string)
    requires EndsBlank(s)
    ensures EndsBlank(SkipSpace(s))
  {
    if s != "" {
      Tail(s, 1);
      if IsSpace(s[0]) {
        SkipSpaceEndsBlank(s[1..]);
      }
    }
  }

  lemma {:induction false} SkipLineEndsBlank(s: string)
    requires EndsBlank(s)
    ensures EndsBlank(SkipLine(s))
  {
    if s != "" {
      Tail(s, 1);
      SkipLineEndsBlank(s[1..]);
    }
  }

  lemma {:induction false} TokenStops(s: string, max: nat)
    requires EndsBlank(s) && s != ""
    ensures Token(s, max).Some? && EndsBlank(Token(s, max).value.1)
  {
    if max > 0 && !IsSpace(s[0]) {
      Tail(s, 1);
      TokenStops(s[1..], max - 1);
    }
  }

  lemma CopyStops(s: string, max: nat)
    requires EndsBlank(s)
    ensures !CopyString(s, max).RanOver?
    ensures CopyString(s, max).Copied? ==> EndsBlank(CopyString(s, max).rest)
  {
    SkipSpaceEndsBlank(s);
    if SkipSpace(s) != "" {
      TokenStops(SkipSpace(s), max);
    }
  }

  /** A step stays in the text, and so will the next one. */
  predicate Safe(step: Step) {
    match step
    case Finished(outcome) => outcome != Overrun
    case Continue(rest, _) => EndsBlank(rest)
  }

  lemma OwnerSafe(s: string, acl: Parsed)
    requires EndsBlank(s)
    ensures Safe(OwnerStep(s, acl))
  {
    CopyStops(s, FIELD);
    if CopyString(s, FIELD).Copied? {
      CopyStops(CopyString(s, FIELD).rest, FIELD);
    }
  }

  lemma GranteeSafe(s: string)
    requires EndsBlank(s)
    ensures ParseGrantee(s).Bad? ==> Safe(ParseGrantee(s).step)
    ensures ParseGrantee(s).Good? ==> EndsBlank(ParseGrantee(s).rest)
  {
    if "Email" <= s {
      Tail(s, 5);
      CopyStops(s[5..], FIELD - 1);
    } else if "UserID" <= s {
      Tail(s, 6);
      CopyStops(s[6..], FIELD - 1);
      if CopyString(s[6..], FIELD - 1).Copied? {
        CopyStops(CopyString(s[6..], FIELD - 1).rest, FIELD - 1);
      }
    } else if "Group" <= s {
      Tail(s, 5);
      SkipSpaceEndsBlank(s[5..]);
    }
  }

  lemma PermissionSafe(t: string)
    requires EndsBlank(t)
    ensures EndsBlank(ParsePermission(t).1)
  {
  }

  lemma GrantSafe(s: string, acl: Parsed)
    requires EndsBlank(s)
    ensures Safe(GrantStep(s, acl))
  {
    GranteeSafe(s);
    if ParseGrantee(s).Good? {
      SkipSpaceEndsBlank(ParseGrantee(s).rest);
      PermissionSafe(SkipSpace(ParseGrantee(s).rest));
    }
  }

  lemma LineSafe(s: string, acl: Parsed)
    requires EndsBlank(s)
    ensures Safe(LineStep(s, acl))
  {
    SkipLineEndsBlank(s);
    if "OwnerID" <= s {
      Tail(s, 7);
      OwnerSafe(s[7..], acl);
    }
    GrantSafe(s, acl);
  }

  lemma {:induction false} ParseStays(s: string, acl: Parsed)
    requires EndsBlank(s)
    ensures ParseFrom(s, acl) != Overrun
    decreases |s|
  {
    var t := SkipSpace(s);
    SkipSpaceShrinks(s);
    SkipSpaceEndsBlank(s);
    LineShrinks(t, acl);
    LineSafe(t, acl);
    match LineStep(t, acl)
    case Finished(_) =>
    case Continue(rest, acl') => ParseStays(rest, acl');
  }

  // ---------- texts that do not ----------

  lemma {:induction false} TokenRunsOver(w: string, max: nat)
    requires SpaceFree(w) && |w| < max
    ensures Token(w, max) == None
  {
    if w != "" {
      TokenRunsOver(w[1..], max - 1);
    }
  }

  /** An address that ends the text and does not fill its array is copied past the terminator. */
  lemma AddressRunsOver(w: string)
    requires Word(w) && |w| < FIELD - 1
    ensures Parse("Email " + w) == Overrun
  {
    var s := "Email " + w;
    assert s == "Email" + (" " + w) by {
      assert "Email " == "Email" + " ";
    }
    Starts("Email", " " + w);
    Differ("Type", s, 0);
    Differ("OwnerID", s, 0);
    SkipBlank(" ", w);
    TokenRunsOver(w, FIELD - 1);
    assert SkipSpace(s) == s;
    assert LineStep(s, Parsed("", "", [])) == Finished(Overrun);
  }

  /** The smallest case of a grant, and an owner line without its line end. */
  lemma Overruns()
    ensures Parse("Email a") == Overrun
    ensures Parse("OwnerID a b") == Overrun
  {
    AddressRunsOver("a");
    assert "Email " + "a" == "Email a";
    OwnerRunsOver("a", "b");
    assert "OwnerID" + (" " + ("a" + (" " + "b"))) == "OwnerID a b";
  }

  lemma OwnerRunsOver(id: string, name: string)
    requires Word(id) && |id| <= FIELD && Word(name) && |name| < FIELD
    ensures Parse("OwnerID" + (" " + (id + (" " + name)))) == Overrun
  {
    var after := " " + (id + (" " + name));
    var s := "OwnerID" + after;
    Starts("OwnerID", after);
    Differ("Type", s, 0);
    CopyWord(" ", id, " " + name, FIELD);
    SkipBlank(" ", name);
    TokenRunsOver(name, FIELD);
    assert SkipSpace(s) == s;
    assert LineStep(s, Parsed("", "", [])) == Finished(Overrun);
  }

  // ---------- the exact condition ----------

  /** What a text must end in for the parser to stay inside it, whatever comes before: white space. */
  lemma StaysExactly(c: char)
    ensures IsSpace(c) <==> forall p: string :: Parse(p + [c]) != Overrun
  {
    if IsSpace(c) {
      forall p: string ensures Parse(p + [c]) != Overrun {
        ParseStays(p + [c], Parsed("", "", []));
      }
    } else {
      AddressRunsOver([c]);
    }
  }

  // ---------- printed lists ----------

  lemma EndsLike(a: string, b: string)
    requires b != "" && EndsBlank(b)
    ensures EndsBlank(a + b) && a + b != ""
  {
    assert (a + b)[|a + b| - 1] == b[|b| - 1];
  }

  lemma {:induction false} RowsEndBlank(before: string, grants: seq<Grant>)
    requires before != "" && EndsBlank(before)
    ensures EndsBlank(before + GrantRows(grants))
    decreases |grants|
  {
    if grants == [] {
      assert before + "" == before;
    } else {
      var row := GrantRow(grants[0]);
      assert row[|row| - 1] == '\n';
      EndsLike(before, row);
      RowsEndBlank(before + row, grants[1..]);
      Regroup(before, row, GrantRows(grants[1..]));
    }
  }

  /** Whatever a list holds, words or not, its printed text is read without running over. */
  lemma PrintedStays(acl: Acl)
    ensures Parse(Print(acl)) != Overrun
  {
    var rows := "\n" + GrantRows(acl.grants);
    RowsEndBlank("\n", acl.grants);
    EndsLike(Dashes(), rows);
    EndsLike(Titles(), Dashes() + rows);
    EndsLike("OwnerID " + acl.ownerId + " " + acl.ownerDisplayName + "\n", Titles() + (Dashes() + rows));
    ParseStays(Print(acl), Parsed("", "", []));
  }
}
