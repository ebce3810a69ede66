/** The address check both admin forms apply to a typed username: it must end with "@" and the
    school domain. The forms lower-case the username before comparing but compare it with the
    domain exactly as stored; `AtSchoolAsWritten` is that check, `AtSchool` the case-blind one
    the forms evidently mean and the rest of the model uses. */
module AccountNames {
  import opened Text

  predicate IsUpper(c: char) {
    'A' <= c <= 'Z'
  }

  /** No capital letter anywhere in `s`. */
  predicate LowerOnly(s: string) {
    forall i :: 0 <= i < |s| ==> !IsUpper(s[i])
  }

  /** The suffix every account of the school ends with. */
  function DomainSuffix(domain: string): (r: string)
    ensures |r| == |domain| + 1 && r[0] == '@' && r[1..] == domain
  {
    "@" + domain
  }

  /** The check as the forms write it: the lower-cased username against the stored domain. */
  predicate AtSchoolAsWritten(username: string, domain: string) {
    EndsWith(ToLower(username), DomainSuffix(domain))
  }

  /** The check as intended: both sides lower-cased. */
  predicate AtSchool(username: string, domain: string) {
    EndsWith(ToLower(username), ToLower(DomainSuffix(domain)))
  }

  /** Which of the two checks a form applies: the forms as written, or the case-blind fix. */
  datatype DomainRule = AsWritten | CaseBlind

  predicate Admits(rule: DomainRule, username: string, domain: string) {
    match rule
    case AsWritten => AtSchoolAsWritten(username, domain)
    case CaseBlind => AtSchool(username, domain)
  }

  /** On a stored domain without capitals the two rules give the same verdict. */
  lemma RulesAgreeOnLowerDomain(username: string, domain: string)
    requires LowerOnly(domain)
    ensures Admits(AsWritten, username, domain) == Admits(CaseBlind, username, domain)
  {
    AsWrittenIffLowerDomain(username, domain);
  }

  lemma LowerCaseIsLowerOnly(s: string)
    ensures LowerOnly(ToLower(s))
  {
  }

  lemma LowerOnlyUnchanged(s: string)
    requires LowerOnly(s)
    ensures ToLower(s) == s
  {
  }

  /** A stored domain with a capital letter makes the as-written check refuse every username. */
  lemma CapitalInDomainRefusesAll(username: string, domain: string, k: nat)
    requires k < |domain| && IsUpper(domain[k])
    ensures !AtSchoolAsWritten(username, domain)
  {
    var s := ToLower(username);
    var t := DomainSuffix(domain);
    assert IsUpper(t[k + 1]);
    if |t| <= |s| {
      LowerCaseIsLowerOnly(username);
      assert s[|s| - |t|..][k + 1] == s[|s| - |t| + k + 1];
      assert s[|s| - |t|..][k + 1] != t[k + 1];
    }
  }

  /** The school's own address form, typed exactly as the domain is stored, is refused by the
      as-written check and accepted by the intended one. */
  lemma SchoolAddressRefused()
    ensures !AtSchoolAsWritten("x@School.ac.ke", "School.ac.ke")
    ensures AtSchool("x@School.ac.ke", "School.ac.ke")
  {
    var domain := "School.ac.ke";
    assert "x@School.ac.ke" == "x" + DomainSuffix(domain);
    CapitalInDomainRefusesAll("x@School.ac.ke", domain, 0);
    EndsWithAppend("x", DomainSuffix(domain));
    TypedAddressAccepted("x@School.ac.ke", domain);
  }

  /** Any local part followed by "@School.ac.ke" passes the case-blind check. */
  lemma SchoolAddressTyped(local: string)
    ensures AtSchool(local + "@School.ac.ke", "School.ac.ke")
  {
    assert local + "@School.ac.ke" == local + DomainSuffix("School.ac.ke");
    EndsWithAppend(local, DomainSuffix("School.ac.ke"));
    TypedAddressAccepted(local + "@School.ac.ke", "School.ac.ke");
  }

  /** The as-written check passes exactly when the intended one does and the stored domain has
      no capital letter: the two differ only on domains with capitals. */
  lemma AsWrittenIffLowerDomain(username: string, domain: string)
    ensures AtSchoolAsWritten(username, domain) <==> AtSchool(username, domain) && LowerOnly(domain)
  {
    if LowerOnly(domain) {
      assert LowerOnly(DomainSuffix(domain));
      LowerOnlyUnchanged(DomainSuffix(domain));
    } else {
      var k :| 0 <= k < |domain| && IsUpper(domain[k]);
      CapitalInDomainRefusesAll(username, domain, k);
    }
  }

  /** Any username that ends with "@" and the domain as stored passes the intended check,
      whatever the case of the rest. */
  lemma TypedAddressAccepted(username: string, domain: string)
    requires EndsWith(username, DomainSuffix(domain))
    ensures AtSchool(username, domain)
  {
    var t := DomainSuffix(domain);
    var s := ToLower(username);
    var lt := ToLower(t);
    forall i | 0 <= i < |t|
      ensures s[|s| - |t|..][i] == lt[i]
    {
      assert username[|username| - |t|..][i] == t[i];
    }
  }

  /** The intended verdict ignores letter case in both the username and the domain. */
  lemma AtSchoolIgnoresCase(u1: string, u2: string, d1: string, d2: string)
    requires ToLower(u1) == ToLower(u2) && ToLower(d1) == ToLower(d2)
    ensures AtSchool(u1, d1) == AtSchool(u2, d2)
  {
    var t1 := ToLower(DomainSuffix(d1));
    var t2 := ToLower(DomainSuffix(d2));
    forall i | 0 <= i < |t1|
      ensures t1[i] == t2[i]
    {
      if i > 0 {
        assert ToLower(d1)[i - 1] == ToLower(d2)[i - 1];
      }
    }
  }

  /** Lower-casing neither adds nor removes spaces, so the forms' space test on the
      lower-cased username is a test on the username itself. */
  lemma SpaceSurvivesLowering(username: string)
    ensures ' ' in ToLower(username) <==> ' ' in username
  {
    if ' ' in username {
      var i :| 0 <= i < |username| && username[i] == ' ';
      assert ToLower(username)[i] == ' ';
    }
  }
}
