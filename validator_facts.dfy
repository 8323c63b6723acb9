/**
 * What the patterns of src/utilities/user.ts accept, stated without the
 * regex constructs, and the order in which the validators make their checks.
 */
module ValidatorFacts {
  import opened Wrappers
  import opened UserUtilities

  // ---------------------------------------------------------------------
  // Helpers on strings
  // ---------------------------------------------------------------------

  /** How many times `c` occurs in `s`. */
  function Count(s: string, c: char): (n: nat)
    ensures n <= |s|
  {
    if s == [] then 0 else (if s[0] == c then 1 else 0) + Count(s[1..], c)
  }

  /** The position of the first `c` in `s`, or `|s|` when there is none. */
  function FirstIndexOf(s: string, c: char): (r: nat)
    ensures r <= |s|
    ensures r < |s| ==> s[r] == c
    ensures forall j :: 0 <= j < r ==> s[j] != c
  {
    if s == [] then 0
    else if s[0] == c then 0
    else 1 + FirstIndexOf(s[1..], c)
  }

  /** The position of the last `c` in `s`, if any. */
  function LastIndexOf(s: string, c: char): (r: Option<nat>)
    ensures r.Some? ==> r.value < |s| && s[r.value] == c
    ensures r.Some? ==> forall j :: r.value < j < |s| ==> s[j] != c
    ensures r.None? ==> forall j :: 0 <= j < |s| ==> s[j] != c
  {
    if s == [] then None
    else if s[|s| - 1] == c then Some(|s| - 1)
    else LastIndexOf(s[..|s| - 1], c)
  }

  lemma {:induction false} CountConcat(a: string, b: string, c: char)
    ensures Count(a + b, c) == Count(a, c) + Count(b, c)
  {
    if a == [] {
      assert a + b == b;
    } else {
      assert (a + b)[0] == a[0];
      assert (a + b)[1..] == a[1..] + b;
      CountConcat(a[1..], b, c);
    }
  }

  /** Splitting at an occurrence of `c` adds that one occurrence to the two sides' counts. */
  lemma SplitCount(s: string, i: nat, c: char)
    requires i < |s| && s[i] == c
    ensures Count(s, c) == Count(s[..i], c) + 1 + Count(s[i + 1..], c)
  {
    assert s == s[..i] + s[i..];
    CountConcat(s[..i], s[i..], c);
    assert s[i..][0] == c && s[i..][1..] == s[i + 1..];
  }

  /** The last `c` is at `i` when `s[i]` is `c` and none follows. */
  lemma LastIndexOfIs(s: string, c: char, i: nat)
    requires i < |s| && s[i] == c
    requires forall j :: i < j < |s| ==> s[j] != c
    ensures LastIndexOf(s, c) == Some(i)
  {
  }

  lemma {:induction false} CountAbsent(s: string, c: char)
    requires forall i :: 0 <= i < |s| ==> s[i] != c
    ensures Count(s, c) == 0
  {
    if s != [] {
      CountAbsent(s[1..], c);
    }
  }

  // ---------------------------------------------------------------------
  // Usernames
  // ---------------------------------------------------------------------

  /**
   * The username class is exactly A-Z, a-z, 0-9, comma and underscore:
   * the hyphen that the format message promises is not in it.
   */
  lemma UsernameAlphabet(c: char)
    ensures UsernameClass(c) <==>
      (InRange(c, 'A', 'Z') || InRange(c, 'a', 'z') || InRange(c, '0', '9') || c == ',' || c == '_')
    ensures !UsernameClass('-')
  {
  }

  /** A name containing a hyphen fails every username check. */
  lemma HyphenRejected(s: string, taken: set<string>)
    requires '-' in s
    ensures !UsernamePattern(s)
    ensures ValidUsername(s, taken) == Rejected([FieldError("username", UsernameFormatMessage)])
    ensures ValidLoginUsername(s) == Rejected([FieldError("username", LoginUsernameMessage)])
  {
    var i :| 0 <= i < |s| && s[i] == '-';
    assert !UsernameClass(s[i]);
  }

  /** A malformed username gets the format error, whether or not it is taken. */
  lemma UsernameFormatCheckedFirst(s: string, taken: set<string>)
    requires !UsernamePattern(s)
    ensures ValidUsername(s, taken) == Rejected([FieldError("username", UsernameFormatMessage)])
  {
  }

  /** A well-formed username that is taken gets exactly the availability error. */
  lemma UsernameTaken(s: string, taken: set<string>)
    requires UsernamePattern(s) && s in taken
    ensures ValidUsername(s, taken) == Rejected([FieldError("username", UsernameTakenMessage)])
  {
  }

  /**
   * The login check accepts exactly the names the registration check would
   * accept against an empty store, and accepts every name registration accepts.
   */
  lemma LoginUsernameSameClass(s: string, taken: set<string>)
    ensures ValidLoginUsername(s).Accepted? <==> ValidUsername(s, {}).Accepted?
    ensures ValidUsername(s, taken).Accepted? ==> ValidLoginUsername(s).Accepted?
  {
  }

  lemma UsernameExamples()
    ensures UsernamePattern("jane_doe") && UsernamePattern("jane,doe") && UsernamePattern("J0")
    ensures !UsernamePattern("jane-doe") && !UsernamePattern("") && !UsernamePattern("jane doe")
  {
    assert "jane-doe"[4] == '-';
    assert "jane doe"[4] == ' ' && !UsernameClass(' ');
  }

  // ---------------------------------------------------------------------
  // Emails: the validator
  // ---------------------------------------------------------------------

  /** A malformed email gets the format error, whether or not it is registered. */
  lemma EmailFormatCheckedFirst(email: string, registered: set<string>)
    requires !EmailPattern(email)
    ensures ValidEmail(email, registered) == Rejected([FieldError("email", EmailFormatMessage)])
  {
  }

  /** A well-formed email that is registered gets exactly the 'already exists' error. */
  lemma EmailAlreadyRegistered(email: string, registered: set<string>)
    requires EmailPattern(email) && email in registered
    ensures ValidEmail(email, registered) == Rejected([FieldError("email", EmailTakenMessage)])
  {
  }

  // ---------------------------------------------------------------------
  // Emails: the local part
  // ---------------------------------------------------------------------

  /** Dots only between atom characters: none first, none last, never two in a row. */
  ghost predicate DotsBetweenAtoms(s: string) {
    && |s| >= 1 && s[0] != '.' && s[|s| - 1] != '.'
    && (forall i :: 0 <= i < |s| ==> s[i] == '.' || AtomChar(s[i]))
    && (forall i :: 0 <= i < |s| - 1 && s[i] == '.' ==> s[i + 1] != '.')
  }

  /** The unquoted local part is a non-empty run of atom characters with isolated inner dots. */
  lemma {:induction false} DotAtomsShape(s: string)
    ensures DotAtoms(s) <==> DotsBetweenAtoms(s)
    decreases |s|
  {
    if DotAtoms(s) {
      DotAtomsHaveShape(s);
    }
    if DotsBetweenAtoms(s) {
      ShapeIsDotAtoms(s);
    }
  }

  lemma {:induction false} DotAtomsHaveShape(s: string)
    requires DotAtoms(s)
    ensures DotsBetweenAtoms(s)
    decreases |s|
  {
    if Atom(s) {
      assert forall i :: 0 <= i < |s| ==> s[i] != '.';
    } else {
      var i :| 0 < i < |s| && s[i] == '.' && Atom(s[..i]) && DotAtoms(s[i + 1..]);
      DotAtomsHaveShape(s[i + 1..]);
      AtomDotShape(s, i);
    }
  }

  /** An atom, a dot and a well-shaped rest make a well-shaped whole. */
  lemma AtomDotShape(s: string, i: int)
    requires 0 < i < |s| && s[i] == '.' && Atom(s[..i]) && DotsBetweenAtoms(s[i + 1..])
    ensures DotsBetweenAtoms(s)
  {
    var t := s[i + 1..];
    forall j | 0 <= j < i ensures s[j] != '.' && AtomChar(s[j]) {
      assert s[j] == s[..i][j];
    }
    forall j | i < j < |s| ensures s[j] == '.' || AtomChar(s[j]) {
      assert s[j] == t[j - i - 1];
    }
    forall j | 0 <= j < |s| - 1 && s[j] == '.' ensures s[j + 1] != '.' {
      if j == i {
        assert s[j + 1] == t[0];
      } else {
        assert j > i;
        assert s[j] == t[j - i - 1] && s[j + 1] == t[j - i];
      }
    }
    assert s[|s| - 1] == t[|t| - 1];
  }

  lemma {:induction false} ShapeIsDotAtoms(s: string)
    requires DotsBetweenAtoms(s)
    ensures DotAtoms(s)
    decreases |s|
  {
    var i := FirstIndexOf(s, '.');
    if i == |s| {
      assert Atom(s);
    } else {
      assert 0 < i < |s| - 1;
      var t := s[i + 1..];
      assert t[0] == s[i + 1];
      assert t[|t| - 1] == s[|s| - 1];
      forall j | 0 <= j < |t| ensures t[j] == '.' || AtomChar(t[j]) {
        assert t[j] == s[i + 1 + j];
      }
      forall j | 0 <= j < |t| - 1 && t[j] == '.' ensures t[j + 1] != '.' {
        assert t[j] == s[i + 1 + j] && t[j + 1] == s[i + 2 + j];
      }
      ShapeIsDotAtoms(t);
      assert Atom(s[..i]);
      assert s[i] == '.' && Atom(s[..i]) && DotAtoms(s[i + 1..]);
    }
  }

  // ---------------------------------------------------------------------
  // Emails: the domain
  // ---------------------------------------------------------------------

  /** Label groups end in a dot and hold only label characters and dots. */
  lemma {:induction false} LabelsShape(s: string)
    requires Labels(s)
    ensures |s| >= 2 && s[|s| - 1] == '.'
    ensures forall k :: 0 <= k < |s| ==> LabelChar(s[k]) || s[k] == '.'
    decreases |s|
  {
    var i :| 0 < i < |s| && s[i] == '.' && Label(s[..i]) && (i == |s| - 1 || Labels(s[i + 1..]));
    if i < |s| - 1 {
      var t := s[i + 1..];
      LabelsShape(t);
      assert s[|s| - 1] == t[|t| - 1];
      forall k | i < k < |s| ensures LabelChar(s[k]) || s[k] == '.' {
        assert s[k] == t[k - i - 1];
      }
    }
    forall k | 0 <= k < i ensures LabelChar(s[k]) {
      assert s[k] == s[..i][k];
    }
  }

  lemma OctetHasNoDot(s: string)
    requires Octet(s)
    ensures Count(s, '.') == 0
  {
    forall k | 0 <= k < |s| ensures s[k] != '.' {
      assert Digit(s[k]);
    }
    CountAbsent(s, '.');
  }

  lemma OctetThenDot(s: string, i: nat)
    requires 0 < i < |s| && s[i] == '.' && Octet(s[..i])
    ensures Count(s, '.') == 1 + Count(s[i + 1..], '.')
  {
    SplitCount(s, i, '.');
    OctetHasNoDot(s[..i]);
  }

  /** `n` dotted octets hold exactly `n - 1` dots. */
  lemma {:induction false} DigitGroupsDots(s: string, n: nat)
    requires n >= 1 && DigitGroups(s, n)
    ensures Count(s, '.') == n - 1
    decreases n
  {
    if n == 1 {
      OctetHasNoDot(s);
    } else {
      var i :| 0 < i < |s| && s[i] == '.' && Octet(s[..i]) && DigitGroups(s[i + 1..], n - 1);
      DigitGroupsDots(s[i + 1..], n - 1);
      OctetThenDot(s, i);
    }
  }

  /** `n` dotted octets take between `2n - 1` and `4n - 1` characters. */
  lemma {:induction false} DigitGroupsLength(s: string, n: nat)
    requires DigitGroups(s, n)
    ensures n >= 1 && 2 * n - 1 <= |s| <= 4 * n - 1
    decreases n
  {
    if n > 1 {
      var i :| 0 < i < |s| && s[i] == '.' && Octet(s[..i]) && DigitGroups(s[i + 1..], n - 1);
      DigitGroupsLength(s[i + 1..], n - 1);
    }
  }

  /** `n` dotted octets hold nothing but digits and dots. */
  lemma {:induction false} DigitGroupsChars(s: string, n: nat)
    requires DigitGroups(s, n)
    ensures forall k :: 0 <= k < |s| ==> Digit(s[k]) || s[k] == '.'
    decreases n
  {
    if n > 1 {
      var i :| 0 < i < |s| && s[i] == '.' && Octet(s[..i]) && DigitGroups(s[i + 1..], n - 1);
      var head, t := s[..i], s[i + 1..];
      DigitGroupsChars(t, n - 1);
      forall k | 0 <= k < |s| ensures Digit(s[k]) || s[k] == '.' {
        if k < i {
          assert s[k] == head[k];
        } else if k > i {
          assert s[k] == t[k - i - 1];
        }
      }
    }
  }

  /**
   * The two shapes of an accepted domain: a bracketed group of four dotted
   * numbers (digits and exactly three dots inside the brackets), or a name
   * that ends, after at least one dot, in a letters-only top-level part of
   * at least two letters.
   */
  ghost predicate DomainForm(d: string) {
    || (&& |d| >= 2 && d[0] == '[' && d[|d| - 1] == ']' && 9 <= |d| <= 17
        && Count(d[1..|d| - 1], '.') == 3
        && forall k :: 0 < k < |d| - 1 ==> Digit(d[k]) || d[k] == '.')
    || (exists j | 0 < j < |d| :: d[j] == '.' && TopLevel(d[j + 1..]))
  }

  /** Every accepted domain is free of '@' and has one of the two shapes. */
  lemma DomainShape(d: string)
    requires Domain(d)
    ensures '@' !in d
    ensures DomainForm(d)
  {
    if BracketedQuad(d) {
      var inner := d[1..|d| - 1];
      DigitGroupsDots(inner, 4);
      DigitGroupsLength(inner, 4);
      DigitGroupsChars(inner, 4);
      forall k | 0 < k < |d| - 1 ensures Digit(d[k]) || d[k] == '.' {
        assert d[k] == inner[k - 1];
      }
      forall k | 0 <= k < |d| ensures d[k] != '@' {
        if 0 < k < |d| - 1 {
          assert Digit(d[k]) || d[k] == '.';
        }
      }
    } else {
      var i :| 0 < i < |d| && Labels(d[..i]) && TopLevel(d[i..]);
      LabelsShape(d[..i]);
      assert d[i - 1] == d[..i][i - 1];
      assert d[i..] == d[i - 1 + 1..];
      forall k | 0 <= k < |d| ensures d[k] != '@' {
        if k < i {
          assert d[k] == d[..i][k];
          assert LabelChar(d[k]) || d[k] == '.';
        } else {
          assert d[k] == d[i..][k - i];
        }
      }
    }
  }

  // ---------------------------------------------------------------------
  // Emails: the split at '@'
  // ---------------------------------------------------------------------

  /**
   * The last '@' splits the string into a local part and a domain. An email
   * is accepted exactly when this holds: since a domain holds no '@', the
   * pattern can only split there (a quoted local part may itself contain '@').
   */
  ghost predicate SplitsAtLastAt(s: string) {
    var k := LastIndexOf(s, '@'); k.Some? && LocalPart(s[..k.value]) && Domain(s[k.value + 1..])
  }

  lemma AcceptedSplitsAtLastAt(s: string)
    requires EmailPattern(s)
    ensures SplitsAtLastAt(s)
  {
    var i :| 0 <= i < |s| && s[i] == '@' && LocalPart(s[..i]) && Domain(s[i + 1..]);
    LastAtBeforeDomain(s, i);
    var k := LastIndexOf(s, '@');
    assert k == Some(i) && s[..k.value] == s[..i] && s[k.value + 1..] == s[i + 1..];
  }

  /** An '@' followed by a domain is the last '@'. */
  lemma LastAtBeforeDomain(s: string, i: nat)
    requires i < |s| && s[i] == '@' && Domain(s[i + 1..])
    ensures LastIndexOf(s, '@') == Some(i)
  {
    DomainShape(s[i + 1..]);
    NoAtAfter(s, i);
    LastIndexOfIs(s, '@', i);
  }

  lemma SplitAtLastAtAccepted(s: string)
    requires SplitsAtLastAt(s)
    ensures EmailPattern(s)
  {
    var k := LastIndexOf(s, '@').value;
    assert s[k] == '@' && LocalPart(s[..k]) && Domain(s[k + 1..]);
  }

  lemma EmailSplitsAtLastAt(s: string)
    ensures EmailPattern(s) <==> SplitsAtLastAt(s)
  {
    if EmailPattern(s) {
      AcceptedSplitsAtLastAt(s);
    }
    if SplitsAtLastAt(s) {
      SplitAtLastAtAccepted(s);
    }
  }

  /** After the last '@' there is a domain of one of the two shapes. */
  ghost predicate ShapedAfterLastAt(s: string) {
    var k := LastIndexOf(s, '@'); k.Some? && DomainForm(s[k.value + 1..])
  }

  /** An '@' followed by an '@'-free domain shape is the last '@', and that shape follows the last '@'. */
  lemma DomainAfterAt(s: string, i: nat)
    requires i < |s| && s[i] == '@' && '@' !in s[i + 1..] && DomainForm(s[i + 1..])
    ensures LastIndexOf(s, '@') == Some(i) && ShapedAfterLastAt(s)
  {
    NoAtAfter(s, i);
    LastIndexOfIs(s, '@', i);
    var k := LastIndexOf(s, '@');
    assert k == Some(i) && s[k.value + 1..] == s[i + 1..];
  }

  /** No '@' follows an '@' whose suffix holds none. */
  lemma NoAtAfter(s: string, i: int)
    requires 0 <= i < |s| && '@' !in s[i + 1..]
    ensures forall j :: i < j < |s| ==> s[j] != '@'
  {
    var d := s[i + 1..];
    forall j | i < j < |s| ensures s[j] != '@' {
      assert s[j] == d[j - i - 1];
    }
  }

  /**
   * Every accepted email contains an '@'; after its last '@' comes a domain
   * of one of the two shapes of DomainForm.
   */
  lemma AcceptedEmailShape(s: string)
    requires EmailPattern(s)
    ensures '@' in s
    ensures ShapedAfterLastAt(s)
  {
    var i :| 0 <= i < |s| && s[i] == '@' && LocalPart(s[..i]) && Domain(s[i + 1..]);
    DomainShape(s[i + 1..]);
    DomainAfterAt(s, i);
  }

  lemma EmailAcceptsPlainAddress()
    ensures EmailPattern("a@b.co")
  {
    var s := "a@b.co";
    assert s[..1] == "a" && Atom("a");
    assert "b.co"[..2] == "b." && "b.co"[2..] == "co";
    assert "b."[..1] == "b" && Label("b") && Labels("b.");
    assert HostName("b.co");
    assert s[2..] == "b.co";
    assert s[1] == '@' && LocalPart(s[..1]) && Domain(s[2..]);
  }

  lemma DottedLocalExample()
    ensures DotAtoms("a.b")
  {
    assert "a.b"[..1] == "a" && "a.b"[2..] == "b" && Atom("b") && DotAtoms("b");
    assert Atom("a.b"[..1]);
  }

  lemma HyphenHostExample()
    ensures HostName("c-1.de")
  {
    assert "c-1.de"[..4] == "c-1." && "c-1.de"[4..] == "de";
    assert "c-1."[..3] == "c-1" && Label("c-1") && Labels("c-1.");
  }

  /** Dots between atoms, and a hyphen and a digit in a label, are accepted. */
  lemma EmailAcceptsDottedLocalAndHyphen()
    ensures EmailPattern("a.b@c-1.de")
  {
    var s := "a.b@c-1.de";
    DottedLocalExample();
    HyphenHostExample();
    assert s[..3] == "a.b" && s[4..] == "c-1.de";
    assert s[3] == '@' && LocalPart(s[..3]) && Domain(s[4..]);
  }

  lemma ThreeOctetsExample()
    ensures DigitGroups("2.3.4", 3)
  {
    assert "3.4"[..1] == "3" && "3.4"[2..] == "4";
    assert Octet("3.4"[..1]) && DigitGroups("3.4", 2);
    assert "2.3.4"[..1] == "2" && "2.3.4"[2..] == "3.4";
    assert Octet("2.3.4"[..1]);
  }

  /** An octet is not range-checked: `999` passes. */
  lemma FourOctetsExample()
    ensures DigitGroups("999.2.3.4", 4)
  {
    var q := "999.2.3.4";
    ThreeOctetsExample();
    assert q[..3] == "999" && q[4..] == "2.3.4";
    assert Octet(q[..3]);
  }

  /** Any dotted quad in brackets is a domain. */
  lemma BracketedDomain(q: string)
    requires DigitGroups(q, 4)
    ensures Domain("[" + q + "]")
  {
    var b := "[" + q + "]";
    assert b[1..|b| - 1] == q;
    assert BracketedQuad(b);
  }

  /** A quoted local part before any domain is accepted; it may itself hold an '@'. */
  lemma QuotedLocalAccepted(local: string, d: string)
    requires QuotedLocal(local) && Domain(d)
    ensures EmailPattern(local + "@" + d)
  {
    var s := local + "@" + d;
    var i := |local|;
    assert s[..i] == local && s[i + 1..] == d;
    assert LocalPart(s[..i]);
  }

  /** A one-letter top-level part is refused. */
  lemma EmailRefusesShortTopLevel()
    ensures !EmailPattern("a@b.c")
  {
    var s, d := "a@b.c", "b.c";
    EmailSplitsAtLastAt(s);
    LastIndexOfIs(s, '@', 1);
    assert s[2..] == d;
    assert !TopLevel(d[2..]) && !TopLevel(d[3..]);
    assert !DomainForm(d);
    if Domain(d) {
      DomainShape(d);
    }
  }

  /** A numeric host outside brackets is refused: its last part is not letters. */
  lemma EmailRefusesBareNumericHost()
    ensures !EmailPattern("a@1.2.3.4")
  {
    var s, d := "a@1.2.3.4", "1.2.3.4";
    EmailSplitsAtLastAt(s);
    LastIndexOfIs(s, '@', 1);
    assert s[2..] == d;
    forall j | 0 < j < |d| && d[j] == '.' ensures !TopLevel(d[j + 1..]) {
      assert d[j + 1..][0] == d[j + 1];
    }
    assert !DomainForm(d);
    if Domain(d) {
      DomainShape(d);
    }
  }

  /** Without an '@' nothing is accepted. */
  lemma EmailRefusesMissingAt()
    ensures !EmailPattern("ab.co")
  {
    EmailSplitsAtLastAt("ab.co");
  }
}
