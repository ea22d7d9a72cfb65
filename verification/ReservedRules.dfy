/** Which values are reserved, as they are given (backend/samadcon/ad/write_guard.py 88-117). */
module ReservedRules {
  import opened Text
  import opened WriteGuard

  /** A rule names the part before "@", as a prefix or whole; a name with "@" in it names one whole address. */
  predicate IsReserved(local: string, whole: string, prefixes: seq<string>, names: seq<string>) {
    || (exists p :: p in prefixes && StartsWithRule(local, p))
    || (exists n :: n in names && EqualsRule(if '@' in n then whole else local, n))
  }

  /** The rule stands at the start of the text, compared in lower case. */
  predicate StartsWithRule(text: string, rule: string) {
    |rule| <= |text| && EqualsRule(text[..|rule|], rule)
  }

  predicate EqualsRule(text: string, rule: string) {
    |text| == |rule| && forall i :: 0 <= i < |text| ==> LowerChar(text[i]) == rule[i]
  }

  lemma EqualsIff(text: string, rule: string)
    ensures EqualsRule(text, rule) <==> Lower(text) == rule
    ensures StartsWithRule(text, rule) <==> rule <= Lower(text)
  {
    if |rule| <= |text| {
      assert Lower(text)[..|rule|] == Lower(text[..|rule|]);
      if EqualsRule(text[..|rule|], rule) {
        assert Lower(text[..|rule|]) == rule;
      }
    }
    if EqualsRule(text, rule) {
      assert Lower(text) == rule;
    }
  }

  // --- The searches -----------------------------------------------------------------------------

  lemma {:induction false} FirstPrefixIff(local: string, prefixes: seq<string>)
    ensures FirstPrefix(Lower(local), prefixes).Some? <==> exists p :: p in prefixes && StartsWithRule(local, p)
  {
    hide StartsWithRule;
    if prefixes != [] {
      FirstPrefixIff(local, prefixes[1..]);
      EqualsIff(local, prefixes[0]);
      assert forall p :: p in prefixes <==> p == prefixes[0] || p in prefixes[1..];
    }
  }

  lemma {:induction false} FirstNameIff(whole: string, local: string, names: seq<string>)
    ensures FirstName(Lower(whole), Lower(local), names).Some?
       <==> exists n :: n in names && EqualsRule(if '@' in n then whole else local, n)
  {
    hide EqualsRule;
    if names != [] {
      FirstNameIff(whole, local, names[1..]);
      EqualsIff(whole, names[0]);
      EqualsIff(local, names[0]);
      assert forall n :: n in names <==> n == names[0] || n in names[1..];
    }
  }

  lemma HitLocalIff(whole: string, local: string, prefixes: seq<string>, names: seq<string>)
    ensures HitLocal(Lower(whole), Lower(local), prefixes, names).Some? <==> IsReserved(local, whole, prefixes, names)
  {
    hide Lower, EqualsRule, StartsWithRule;
    FirstPrefixIff(local, prefixes);
    FirstNameIff(whole, local, names);
  }

  // --- The parts of a value ------------------------------------------------------------------------

  /** What stands before the first "@". */
  predicate LocalPart(local: string, whole: string) {
    '@' !in local && (whole == local || local + "@" <= whole)
  }

  lemma LocalIs(local: string, whole: string)
    requires LocalPart(local, whole)
    ensures Before(Lower(whole), '@') == Lower(local)
  {
    NoSuchLower(local, '@');
    var low := Lower(whole);
    if whole == local {
      IndexOfIs(low, '@', |low|);
      assert low[..|low|] == low;
    } else {
      assert whole[..|local|] == local && whole[|local|] == '@';
      assert low[..|local|] == Lower(local) && low[|local|] == '@';
      IndexOfIs(low, '@', |local|);
    }
  }

  /** Lower case neither makes nor takes a character that is no letter. */
  lemma NoSuchLower(s: string, c: char)
    requires !('A' <= c <= 'Z') && !('a' <= c <= 'z') && c !in s
    ensures c !in Lower(s)
  {
    forall i | 0 <= i < |s| ensures Lower(s)[i] != c {
      assert s[i] in s;
    }
  }

  lemma AttributeNames()
    ensures Lower("samaccountname") == "samaccountname" && Lower("userprincipalname") == "userprincipalname"
    ensures "mail" != "proxyaddresses" && "userprincipalname" != "proxyaddresses" && "samaccountname" != "proxyaddresses"
    ensures "mail" != "samaccountname" && "userprincipalname" != "samaccountname"
  {
    assert |"mail"| == 4 && |"proxyaddresses"| == 14 && |"samaccountname"| == 14 && |"userprincipalname"| == 17;
    assert "proxyaddresses"[0] == 'p' && "samaccountname"[0] == 's';
  }

  // --- What is reserved -----------------------------------------------------------------------------

  /** A mail address or a user principal name is reserved when a rule names its part before "@", or all of it. */
  lemma AddressIff(attribute: string, value: string, local: string, prefixes: seq<string>, names: seq<string>)
    requires Lower(attribute) == "mail" || Lower(attribute) == "userprincipalname"
    requires LocalPart(local, Strip(value, WHITESPACE))
    ensures ReservedHit(attribute, value, prefixes, names).Some?
       <==> IsReserved(local, Strip(value, WHITESPACE), prefixes, names)
  {
    hide Strip, Lower, IsReserved, HitLocal, LocalPart, Before;
    AttributeNames();
    var whole := Strip(value, WHITESPACE);
    LocalIs(local, whole);
    HitLocalIff(whole, local, prefixes, names);
  }

  /** An account name is reserved with and without the one "$" a computer's ends in. */
  lemma AccountIff(attribute: string, value: string, local: string, prefixes: seq<string>, names: seq<string>)
    requires Lower(attribute) == "samaccountname" && LocalPart(local, Strip(value, WHITESPACE))
    ensures var bare := if local != "" && local[|local| - 1] == '$' then local[..|local| - 1] else local;
            ReservedHit(attribute, value, prefixes, names).Some?
            <==> IsReserved(bare, Strip(value, WHITESPACE), prefixes, names)
  {
    hide Strip, Lower, IsReserved, HitLocal, LocalPart, Before, RemoveSuffix;
    AttributeNames();
    var whole := Strip(value, WHITESPACE);
    var bare := if local != "" && local[|local| - 1] == '$' then local[..|local| - 1] else local;
    LocalIs(local, whole);
    DollarIs(local);
    HitLocalIff(whole, bare, prefixes, names);
  }

  lemma DollarIs(local: string)
    ensures RemoveSuffix(Lower(local), "$")
         == Lower(if local != "" && local[|local| - 1] == '$' then local[..|local| - 1] else local)
  {
    var low := Lower(local);
    if local != "" {
      assert low[|low| - 1] == LowerChar(local[|local| - 1]);
      assert EndsWith(low, "$") <==> low[|low| - 1] == '$';
      if local[|local| - 1] == '$' {
        assert low[..|low| - 1] == Lower(local[..|local| - 1]);
      }
    }
  }

  /** Without "@", the two spellings of a computer's name are reserved alike. */
  lemma DollarDoesNotShow(attribute: string, name: string, prefixes: seq<string>, names: seq<string>)
    requires Lower(attribute) == "samaccountname" && CleanEnds(name, WHITESPACE) && '@' !in name
    requires name != "" && name[|name| - 1] != '$'
    ensures ReservedHit(attribute, name, prefixes, names).Some?
       <==> ReservedHit(attribute, name + "$", prefixes, names).Some?
  {
    hide Strip, Lower, ReservedHit, StartsWithRule, EqualsRule;
    var dollar := name + "$";
    DollarIsNoSpace();
    assert CleanEnds(dollar, WHITESPACE) by { assert dollar[0] == name[0] && dollar[|dollar| - 1] == '$'; }
    assert dollar[..|dollar| - 1] == name;
    AccountIff(attribute, name, name, prefixes, names);
    AccountIff(attribute, dollar, dollar, prefixes, names);
    forall n | n in names && '@' in n ensures !EqualsRule(name, n) && !EqualsRule(dollar, n) {
      AtDiffers(name, n);
      AtDiffers(dollar, n);
    }
  }

  lemma DollarIsNoSpace()
    ensures '$' !in WHITESPACE
  {
  }

  lemma AtDiffers(text: string, rule: string)
    requires '@' !in text && '@' in rule
    ensures !EqualsRule(text, rule)
  {
    hide Lower;
    var i :| 0 <= i < |rule| && rule[i] == '@';
    if i < |text| {
      assert text[i] in text;
    }
  }

  /** A proxy address is reserved when its type is SMTP in any case and a rule names its address; any other type, and a
      value without one, never is. */
  lemma ProxyIff(attribute: string, value: string, kind: string, address: string, local: string,
                 prefixes: seq<string>, names: seq<string>)
    requires Lower(attribute) == "proxyaddresses" && Strip(value, WHITESPACE) == kind + ":" + address && ':' !in kind
    requires LocalPart(local, address)
    ensures ReservedHit(attribute, value, prefixes, names).Some?
       <==> EqualIgnoringCase(kind, "SMTP") && IsReserved(local, address, prefixes, names)
  {
    hide Strip, Lower, IsReserved, HitLocal, LocalPart, Before, EqualIgnoringCase;
    AttributeNames();
    Typed(kind, address);
    LowerIff(kind, "SMTP");
    SmtpLower();
    LocalIs(local, address);
    HitLocalIff(address, local, prefixes, names);
  }

  lemma SmtpLower()
    ensures Lower("SMTP") == "smtp"
  {
  }

  lemma Typed(kind: string, address: string)
    requires ':' !in kind
    ensures var low := Lower(kind + ":" + address);
            && IndexOf(low, ':') == |kind| && |kind| < |low|
            && low[..|kind|] == Lower(kind) && low[|kind| + 1..] == Lower(address)
  {
    var low := Lower(kind + ":" + address);
    NoSuchLower(kind, ':');
    assert low[..|kind|] == Lower(kind) && low[|kind|] == ':';
    assert low[|kind| + 1..] == Lower(address) by {
      assert (kind + ":" + address)[|kind| + 1..] == address;
    }
    IndexOfIs(low, ':', |kind|);
  }

  lemma UntypedProxy(attribute: string, value: string, prefixes: seq<string>, names: seq<string>)
    requires Lower(attribute) == "proxyaddresses" && ':' !in Strip(value, WHITESPACE)
    ensures ReservedHit(attribute, value, prefixes, names) == None
  {
    hide Strip, Lower, HitLocal;
    NoSuchLower(Strip(value, WHITESPACE), ':');
  }

  /** In proxyAddresses "smtp:" before an address is what the bare address is in mail, unless white space follows the
      colon, which only mail takes off. */
  lemma ProxyIsMail(value: string, kind: string, address: string, local: string, prefixes: seq<string>, names: seq<string>)
    requires Strip(value, WHITESPACE) == kind + ":" + address && EqualIgnoringCase(kind, "smtp")
    requires LocalPart(local, address) && CleanEnds(address, WHITESPACE)
    ensures ReservedHit("proxyAddresses", value, prefixes, names).Some?
       <==> ReservedHit("mail", address, prefixes, names).Some?
  {
    hide Strip, Lower, LocalPart, IsReserved, ReservedHit;
    ProxyNames();
    SmtpTypes(kind);
    ProxyIff("proxyAddresses", value, kind, address, local, prefixes, names);
    AddressIff("mail", address, local, prefixes, names);
  }

  lemma ProxyNames()
    ensures Lower("proxyAddresses") == "proxyaddresses" && Lower("mail") == "mail"
  {
  }

  lemma SmtpTypes(kind: string)
    requires EqualIgnoringCase(kind, "smtp")
    ensures EqualIgnoringCase(kind, "SMTP") && ':' !in kind
  {
    forall i | 0 <= i < 4 ensures SameLetter(kind[i], "SMTP"[i]) && kind[i] != ':' {
      assert SameLetter(kind[i], "smtp"[i]);
    }
  }

  /** No other attribute is checked at all. */
  lemma OtherAttributes(attribute: string, value: string, prefixes: seq<string>, names: seq<string>)
    requires Lower(attribute) != "samaccountname" && Lower(attribute) != "userprincipalname"
    requires Lower(attribute) != "mail" && Lower(attribute) != "proxyaddresses"
    ensures ReservedHit(attribute, value, prefixes, names) == None
  {
    hide Lower;
  }

  /** A prefix catches an account's proxy address, whatever the case of its type. */
  lemma PrefixedProxy(name: string, rest: string)
    requires '@' !in name && CleanEnds(rest, WHITESPACE) && rest != ""
    ensures ReservedHit("proxyAddresses", "SMTP:havora-" + name + "@" + rest, ["havora-"], []).Some?
  {
    hide Strip, Lower, ReservedHit, StartsWithRule;
    var address := "havora-" + name + "@" + rest;
    var value := "SMTP:havora-" + name + "@" + rest;
    var local := "havora-" + name;
    ProxyNames();
    HavoraText();
    SIsNoSpace();
    assert value == "SMTP" + ":" + address by { assert "SMTP:havora-" == "SMTP" + ":" + "havora-"; }
    assert value[0] == 'S' && value[|value| - 1] == rest[|rest| - 1];
    assert CleanEnds(value, WHITESPACE);
    assert ':' !in "SMTP" by { assert "SMTP" == ['S', 'M', 'T', 'P']; }
    assert local + "@" <= address;
    ProxyIff("proxyAddresses", value, "SMTP", address, local, ["havora-"], []);
    assert StartsWithRule(local, "havora-") by { StartsHavora(name); }
    assert "havora-" in ["havora-"];
  }

  lemma HavoraText()
    ensures '@' !in "havora-" && Lower("havora-") == "havora-"
  {
    assert "havora-" == ['h', 'a', 'v', 'o', 'r', 'a', '-'];
  }

  lemma SIsNoSpace()
    ensures 'S' !in WHITESPACE
  {
  }

  lemma StartsHavora(name: string)
    ensures StartsWithRule("havora-" + name, "havora-")
  {
    assert ("havora-" + name)[..7] == "havora-";
    assert "havora-" == ['h', 'a', 'v', 'o', 'r', 'a', '-'];
  }
}
