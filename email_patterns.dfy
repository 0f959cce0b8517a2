// The two e-mail shapes the pages check before sending a request.

module EmailPatterns {
  import opened Common

  /**
   * `/^\S+@\S+\.\S+$/` (the invite dialog): no white space, an '@' with at
   * least one character before it, and after it at least one character, a
   * '.', and at least one more character.
   */
  predicate LooseEmail(s: string)
  {
    NoSpace(s)
    && exists i, j :: 0 < i && i + 1 < j && j + 1 < |s| && s[i] == '@' && s[j] == '.'
  }

  /**
   * `/^[^\s@]+@[^\s@]+\.[^\s@]+$/` (the profile form): as above, but the '@'
   * is the only one in the address.
   */
  predicate StrictEmail(s: string)
  {
    NoSpace(s)
    && exists i :: 0 < i < |s| && s[i] == '@' && '@' !in s[..i] && '@' !in s[i + 1..]
         && exists j :: i + 1 < j && j + 1 < |s| && s[j] == '.'
  }

  /** local@domain.tld with the three parts non-empty and free of white space and '@' is accepted. */
  lemma StrictAcceptsParts(local: string, domain: string, tld: string)
    requires local != [] && domain != [] && tld != []
    requires NoSpace(local) && NoSpace(domain) && NoSpace(tld)
    requires '@' !in local && '@' !in domain && '@' !in tld
    ensures StrictEmail(local + "@" + domain + "." + tld)
  {
    var s := local + "@" + domain + "." + tld;
    var i, j := |local|, |local| + 1 + |domain|;
    assert s[..i] == local;
    assert s[i + 1..] == domain + "." + tld;
    assert s[i] == '@' && s[j] == '.';
    assert forall k :: 0 <= k < |s| ==> !IsSpace(s[k]) by {
      forall k | 0 <= k < |s| ensures !IsSpace(s[k]) {
        if k < i { assert s[k] == local[k]; }
        else if i < k < j { assert s[k] == domain[k - i - 1]; }
        else if j < k { assert s[k] == tld[k - j - 1]; }
      }
    }
  }

  /** Every address the profile form accepts, the invite dialog accepts too. */
  lemma StrictImpliesLoose(s: string)
    requires StrictEmail(s)
    ensures LooseEmail(s)
  {
    var i :| 0 < i < |s| && s[i] == '@' && '@' !in s[..i] && '@' !in s[i + 1..]
             && exists j :: i + 1 < j && j + 1 < |s| && s[j] == '.';
    var j :| i + 1 < j && j + 1 < |s| && s[j] == '.';
    assert 0 < i && i + 1 < j && j + 1 < |s| && s[i] == '@' && s[j] == '.';
  }

  /** The converse fails: the invite dialog lets a second '@' through. */
  lemma LooseAcceptsDoubleAt()
    ensures LooseEmail("a@@b.c") && !StrictEmail("a@@b.c")
  {
    var s := "a@@b.c";
    assert s[1] == '@' && s[4] == '.';
    forall i | 0 < i < |s| && s[i] == '@'
      ensures '@' in s[..i] || '@' in s[i + 1..]
    {
      if i == 1 { assert s[i + 1..][0] == '@'; } else { assert s[..i][1] == '@'; }
    }
  }
}
