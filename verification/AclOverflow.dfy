/**
  When the parser of access control lists writes past the owner's two arrays: it copies up to FIELD
  characters into an array of FIELD, and then the terminator behind them.
 */
module AclOverflow {
  import opened AclText
  import opened Common

  /** The copied word and its terminator do not fit. */
  predicate TooLong(field: Field) {
    field.Copied? && |field.text| >= FIELD
  }

  /** One of the two copies that an owner line leads to, if it gets so far, is too long. */
  predicate OwnerOverflows(s: string) {
    var id := CopyString(s, FIELD);
    TooLong(id) || (id.Copied? && SkipSpace(id.rest) != "" && TooLong(CopyString(id.rest, FIELD)))
  }

  /** No owner line that the parser reads from some point on writes past an array. */
  predicate WritesInside(s: string, acl: Parsed)
    decreases |s|
  {
    var t := SkipSpace(s);
    SkipSpaceShrinks(s);
    LineShrinks(t, acl);
    && ("OwnerID" <= t ==> !OwnerOverflows(t[7..]))
    && match LineStep(t, acl)
       case Finished(_) => true
       case Continue(rest, acl') => WritesInside(rest, acl')
  }

  // ---------- one owner line ----------

  function Cut(w: string, max: nat): nat {
    if |w| < max then |w| else max
  }

  /** A copy takes as much of a word as it may and leaves the rest. */
  lemma {:induction false} TokenCuts(w: string, t: string, max: nat)
    requires SpaceFree(w) && StartsBlank(t)
    ensures Token(w + t, max) == Some((w[..Cut(w, max)], w[Cut(w, max)..] + t))
  {
    if w == "" || max == 0 {
      assert w + t == w[Cut(w, max)..] + t;
    } else {
      var s := w + t;
      assert s[1..] == w[1..] + t && s[0] == w[0];
      TokenCuts(w[1..], t, max - 1);
      assert [w[0]] + w[1..][..Cut(w[1..], max - 1)] == w[..Cut(w, max)];
      assert w[1..][Cut(w[1..], max - 1)..] == w[Cut(w, max)..];
    }
  }

  lemma CopyCuts(w: string, t: string)
    requires Word(w) && StartsBlank(t)
    ensures CopyString(" " + (w + t), FIELD) == Copied(w[..Cut(w, FIELD)], w[Cut(w, FIELD)..] + t)
  {
    SkipBlank(" ", w + t);
    TokenCuts(w, t, FIELD);
  }

  /** An owner line is read inside its arrays exactly when both its words are shorter than these. */
  lemma OwnerFitsExactly(id: string, name: string, t: string)
    requires Word(id) && Word(name) && StartsBlank(t)
    ensures !OwnerOverflows(" " + (id + (" " + (name + t)))) <==> |id| < 128 && |name| < 128
  {
    CopyCuts(id, " " + (name + t));
    if |id| < FIELD {
      assert id[|id|..] + (" " + (name + t)) == " " + (name + t);
      SkipBlank(" ", name + t);
      CopyCuts(name, t);
    }
  }

  /** Seen in the result: it is within the arrays exactly when the words are, and never further out than one. */
  lemma OwnerResult(id: string, name: string, t: string, acl: Parsed)
    requires Word(id) && Word(name) && StartsBlank(t)
    ensures var step := OwnerStep(" " + (id + (" " + (name + t))), acl);
      && (step.Continue? && |step.acl.ownerId| < FIELD && |step.acl.ownerDisplayName| < FIELD <==>
            |id| < FIELD && |name| < FIELD)
      && (step.Continue? ==> |step.acl.ownerId| <= FIELD && |step.acl.ownerDisplayName| <= FIELD)
  {
    var s := " " + (id + (" " + (name + t)));
    OwnerFitsExactly(id, name, t);
    CopyCuts(id, " " + (name + t));
    if |id| < FIELD {
      assert id[|id|..] + (" " + (name + t)) == " " + (name + t);
      SkipBlank(" ", name + t);
      CopyCuts(name, t);
    }
    if OwnerStep(s, acl).Continue? {
      CopiedIsWord(s, FIELD);
      CopiedIsWord(CopyString(s, FIELD).rest, FIELD);
    }
  }

  /** The smallest case: a word as long as the array is accepted. */
  lemma Overflows()
    ensures var text := "OwnerID" + (" " + (Rep('a', 128) + (" " + ("b" + "\n"))));
      && Parse(text) == Accepted(Parsed(Rep('a', 128), "b", []))
      && !WritesInside(text, Parsed("", "", []))
  {
    var id, start := Rep('a', 128), Parsed("", "", []);
    var after := " " + (id + (" " + ("b" + "\n")));
    var line := "OwnerID" + after;
    Starts("OwnerID", after);
    ReadOwner(id, "b", "\n", start);
    OneRound("", line, start, "\n", Parsed(id, "b", []));
    ReadBlank("\n", Parsed(id, "b", []));
    assert "" + line == line && "\n" + "" == "\n";
    OwnerFitsExactly(id, "b", "\n");
    assert SkipSpace(line) == line;
  }

  // ---------- whole texts ----------

  /** Somewhere in s stand n characters in a row that are not white space. */
  ghost predicate HasRun(s: string, n: nat) {
    exists i: nat :: RunAt(s, i, n)
  }

  predicate RunAt(s: string, i: nat, n: nat) {
    i + n <= |s| && SpaceFree(s[i..i + n])
  }

  lemma RunInTail(s: string, k: nat, n: nat)
    requires k <= |s| && HasRun(s[k..], n)
    ensures HasRun(s, n)
  {
    var i: nat :| RunAt(s[k..], i, n);
    assert s[k..][i..i + n] == s[k + i..k + i + n];
    assert RunAt(s, k + i, n);
  }

  /** t is what is left of s from some place on. */
  predicate TailOf(t: string, s: string) {
    |t| <= |s| && t == s[|s| - |t|..]
  }

  lemma TailOfTail(u: string, t: string, s: string)
    requires TailOf(u, t) && TailOf(t, s)
    ensures TailOf(u, s)
  {
  }

  lemma TailRuns(t: string, s: string, n: nat)
    requires TailOf(t, s) && !HasRun(s, n)
    ensures !HasRun(t, n)
  {
    if HasRun(t, n) {
      RunInTail(s, |s| - |t|, n);
    }
  }

  lemma {:induction false} SkipSpaceTail(s: string)
    ensures TailOf(SkipSpace(s), s)
  {
    if s != "" && IsSpace(s[0]) {
      SkipSpaceTail(s[1..]);
      TailOfTail(SkipSpace(s), s[1..], s);
    }
  }

  lemma {:induction false} SkipLineTail(s: string)
    ensures TailOf(SkipLine(s), s)
  {
    if s != "" && s[0] != '\n' && s[0] != '\r' {
      SkipLineTail(s[1..]);
      TailOfTail(SkipLine(s), s[1..], s);
    }
  }

  lemma {:induction false} TokenSplits(s: string, max: nat)
    requires Token(s, max).Some?
    ensures Token(s, max).value.0 + Token(s, max).value.1 == s
    ensures SpaceFree(Token(s, max).value.0)
  {
    if max > 0 && !IsSpace(s[0]) {
      TokenSplits(s[1..], max - 1);
      var (tok, rest) := Token(s[1..], max - 1).value;
      assert [s[0]] + tok + rest == [s[0]] + (tok + rest) == s;
    }
  }

  lemma CopyTail(s: string, max: nat)
    requires CopyString(s, max).Copied?
    ensures TailOf(CopyString(s, max).rest, s)
    ensures HasRun(s, |CopyString(s, max).text|)
  {
    var t := SkipSpace(s);
    var (tok, rest) := Token(t, max).value;
    SkipSpaceTail(s);
    TokenSplits(t, max);
    assert t[0..0 + |tok|] == tok && t[|tok|..] == rest;
    assert RunAt(t, 0, |tok|);
    RunInTail(s, |s| - |t|, |tok|);
    TailOfTail(rest, t, s);
  }

  /** Shorter runs are parts of longer ones. */
  lemma ShorterRun(s: string, n: nat, m: nat)
    requires HasRun(s, n) && m <= n
    ensures HasRun(s, m)
  {
    var i: nat :| RunAt(s, i, n);
    assert s[i..i + n][..m] == s[i..i + m];
    assert RunAt(s, i, m);
  }

  lemma NoOverflow(s: string)
    requires !HasRun(s, FIELD)
    ensures !OwnerOverflows(s)
  {
    var id := CopyString(s, FIELD);
    if id.Copied? {
      CopyTail(s, FIELD);
      if |id.text| >= FIELD {
        ShorterRun(s, |id.text|, FIELD);
      }
      TailRuns(id.rest, s, FIELD);
      var name := CopyString(id.rest, FIELD);
      if name.Copied? {
        CopyTail(id.rest, FIELD);
        if |name.text| >= FIELD {
          ShorterRun(id.rest, |name.text|, FIELD);
        }
      }
    }
  }

  lemma DropTail(s: string, n: nat)
    requires n <= |s|
    ensures TailOf(s[n..], s)
  {
  }

  /** Two copies, one behind the other. */
  lemma TwoCopies(s: string, max: nat)
    requires CopyString(s, max).Copied? && CopyString(CopyString(s, max).rest, max).Copied?
    ensures TailOf(CopyString(CopyString(s, max).rest, max).rest, s)
  {
    var id := CopyString(s, max);
    CopyTail(s, max);
    CopyTail(id.rest, max);
    TailOfTail(CopyString(id.rest, max).rest, id.rest, s);
  }

  lemma GranteeTail(s: string)
    requires ParseGrantee(s).Good?
    ensures TailOf(ParseGrantee(s).rest, s)
  {
    var k := if "Email" <= s then 5 else if "UserID" <= s then 6 else 5;
    var t := s[k..];
    DropTail(s, k);
    if "Email" <= s {
      CopyTail(t, FIELD - 1);
    } else if "UserID" <= s {
      TwoCopies(t, FIELD - 1);
    } else {
      SkipSpaceTail(t);
      GroupTail(SkipSpace(t));
      TailOfTail(ParseGroup(SkipSpace(t)).rest, SkipSpace(t), t);
    }
    assert TailOf(ParseGrantee(s).rest, t);
    TailOfTail(ParseGrantee(s).rest, t, s);
  }

  lemma GroupTail(t: string)
    ensures ParseGroup(t).Good? ==> TailOf(ParseGroup(t).rest, t)
  {
  }

  lemma PermissionTail(t: string)
    ensures TailOf(ParsePermission(t).1, t)
  {
  }

  lemma GrantTail(s: string, acl: Parsed)
    requires GrantStep(s, acl).Continue?
    ensures TailOf(GrantStep(s, acl).rest, s)
  {
    var rest := ParseGrantee(s).rest;
    GranteeTail(s);
    SkipSpaceTail(rest);
    PermissionTail(SkipSpace(rest));
    TailOfTail(SkipSpace(rest), rest, s);
    TailOfTail(ParsePermission(SkipSpace(rest)).1, SkipSpace(rest), s);
  }

  lemma LineTail(s: string, acl: Parsed)
    requires LineStep(s, acl).Continue?
    ensures TailOf(LineStep(s, acl).rest, s)
  {
    if "Type" <= s || s[0] == '-' {
      SkipLineTail(s);
    } else if "OwnerID" <= s {
      DropTail(s, 7);
      TwoCopies(s[7..], FIELD);
      TailOfTail(LineStep(s, acl).rest, s[7..], s);
    } else {
      GrantTail(s, acl);
    }
  }

  /** A text without a run of FIELD characters is read inside all arrays, whatever it holds. */
  lemma {:induction false} ShortRunsStay(s: string, acl: Parsed)
    requires !HasRun(s, FIELD)
    ensures WritesInside(s, acl)
    decreases |s|
  {
    var t := SkipSpace(s);
    SkipSpaceShrinks(s);
    LineShrinks(t, acl);
    SkipSpaceTail(s);
    TailRuns(t, s, FIELD);
    if "OwnerID" <= t {
      TailRuns(t[7..], t, FIELD);
      NoOverflow(t[7..]);
    }
    if LineStep(t, acl).Continue? {
      LineTail(t, acl);
      TailRuns(LineStep(t, acl).rest, t, FIELD);
      ShortRunsStay(LineStep(t, acl).rest, LineStep(t, acl).acl);
    }
  }

  lemma LineEndInside(acl: Parsed)
    ensures WritesInside("\n", acl)
  {
    SkipBlank("\n", "");
    assert "\n" + "" == "\n";
  }

  /** And a run as long as that is all it takes: in an owner line it is not. */
  lemma LongWordEscapes(w: string)
    requires Word(w)
    ensures |w| < FIELD <==>
      WritesInside("OwnerID" + (" " + (w + (" " + ("b" + "\n")))), Parsed("", "", []))
  {
    var start := Parsed("", "", []);
    var after := " " + (w + (" " + ("b" + "\n")));
    var line := "OwnerID" + after;
    Starts("OwnerID", after);
    assert SkipSpace(line) == line;
    OwnerFitsExactly(w, "b", "\n");
    if |w| < FIELD {
      ReadOwner(w, "b", "\n", start);
      LineEndInside(Parsed(w, "b", []));
    }
  }

  // ---------- printed lists ----------

  lemma ShortHasNoRun(s: string)
    requires |s| < FIELD
    ensures !HasRun(s, FIELD)
  {
  }

  /** White space at k breaks every run over it. */
  lemma BrokenAt(s: string, i: nat, n: nat, k: nat)
    requires i <= k < i + n <= |s| && IsSpace(s[k])
    ensures !RunAt(s, i, n)
  {
    assert s[i..i + n][k - i] == s[k];
  }

  lemma BlankHasNoRun(ws: string)
    requires Blank(ws)
    ensures !HasRun(ws, FIELD)
  {
    forall i: nat ensures !RunAt(ws, i, FIELD) {
      if i + FIELD <= |ws| {
        BrokenAt(ws, i, FIELD, i);
      }
    }
  }

  /** No run reaches across a place where one of the parts has white space. */
  lemma NoRunAcross(a: string, b: string)
    requires !HasRun(a, FIELD) && !HasRun(b, FIELD)
    requires StartsBlank(b) || (a != "" && IsSpace(a[|a| - 1]))
    ensures !HasRun(a + b, FIELD)
  {
    forall i: nat ensures !RunAt(a + b, i, FIELD) {
      if i + FIELD <= |a| {
        assert (a + b)[i..i + FIELD] == a[i..i + FIELD];
        assert !RunAt(a, i, FIELD);
      } else if i >= |a| {
        if i + FIELD <= |a + b| {
          assert (a + b)[i..i + FIELD] == b[i - |a|..i - |a| + FIELD];
          assert !RunAt(b, i - |a|, FIELD);
        }
      } else if i + FIELD <= |a + b| {
        BrokenAt(a + b, i, FIELD, if StartsBlank(b) then |a| else |a| - 1);
      }
    }
  }

  /** A word, white space behind it, and what follows that. */
  lemma WordThen(w: string, gap: string, rest: string)
    requires !HasRun(w, FIELD) && StartsBlank(gap) && Blank(gap) && !HasRun(rest, FIELD)
    ensures !HasRun(w + (gap + rest), FIELD)
  {
    BlankHasNoRun(gap);
    assert IsSpace(gap[|gap| - 1]);
    NoRunAcross(gap, rest);
    NoRunAcross(w, gap + rest);
  }

  lemma IdHasNoRun(g: Grantee)
    requires FitsGrantee(g) && PlainGrantee(g)
    ensures !HasRun(IdOf(g), FIELD)
  {
    if g.User? {
      var name := "(" + g.displayName + ")";
      assert IdOf(g) == g.id + (" " + name);
      ShortHasNoRun(g.id);
      ShortHasNoRun(name);
      WordThen(g.id, " ", name);
    } else {
      ShortHasNoRun(IdOf(g));
    }
  }

  lemma RowHasNoRun(g: Grant)
    requires FitsGrantee(g.grantee) && PlainGrantee(g.grantee)
    ensures !HasRun(GrantRow(g), FIELD) && GrantRow(g) != "" && IsSpace(GrantRow(g)[|GrantRow(g)| - 1])
  {
    var kind, id, perm := KindOf(g.grantee), IdOf(g.grantee), PermOf(g.permission);
    RowThen(kind, id, perm, "");
    assert GrantRow(g) + "" == GrantRow(g);
    ShortHasNoRun("");
    ShortHasNoRun(kind);
    ShortHasNoRun(perm);
    IdHasNoRun(g.grantee);
    WordThen(perm, End(perm), "");
    WordThen(id, Gap(id, 90), perm + (End(perm) + ""));
    WordThen(kind, Gap(kind, 6), id + (Gap(id, 90) + (perm + (End(perm) + ""))));
    assert GrantRow(g)[|GrantRow(g)| - 1] == '\n';
  }

  lemma {:induction false} RowsHaveNoRun(grants: seq<Grant>)
    requires forall i | 0 <= i < |grants| :: PlainGrantee(grants[i].grantee) && FitsGrantee(grants[i].grantee)
    ensures !HasRun(GrantRows(grants), FIELD)
  {
    if grants == [] {
      ShortHasNoRun("");
    } else {
      RowHasNoRun(grants[0]);
      RowsHaveNoRun(grants[1..]);
      NoRunAcross(GrantRow(grants[0]), GrantRows(grants[1..]));
    }
  }

  lemma FirstLineHasNoRun(id: string, name: string)
    requires |id| < FIELD && |name| < FIELD
    ensures !HasRun("OwnerID " + id + " " + name + "\n", FIELD)
  {
    ShortHasNoRun("");
    ShortHasNoRun(id);
    ShortHasNoRun(name);
    ShortHasNoRun("OwnerID");
    WordThen(name, "\n", "");
    WordThen(id, " ", name + ("\n" + ""));
    WordThen("OwnerID", " ", id + (" " + (name + ("\n" + ""))));
    var line := "OwnerID " + id + " " + name + "\n";
    assert line == "OwnerID" + (" " + (id + (" " + (name + ("\n" + "")))));
  }

  /** The text of a list of plain words that fit is read back inside all arrays. */
  lemma PrintedInside(acl: Acl)
    requires Fits(acl) && Plain(acl)
    ensures WritesInside(Print(acl), Parsed("", "", []))
  {
    var rows := GrantRows(acl.grants);
    RowsHaveNoRun(acl.grants);
    ShortHasNoRun("\n");
    NoRunAcross("\n", rows);
    HeadingLength();
    ShortHasNoRun(Dashes());
    ShortHasNoRun(Titles());
    NoRunAcross(Dashes(), "\n" + rows);
    NoRunAcross(Titles(), Dashes() + ("\n" + rows));
    FirstLineHasNoRun(acl.ownerId, acl.ownerDisplayName);
    NoRunAcross("OwnerID " + acl.ownerId + " " + acl.ownerDisplayName + "\n", Titles() + (Dashes() + ("\n" + rows)));
    ShortRunsStay(Print(acl), Parsed("", "", []));
  }
}
