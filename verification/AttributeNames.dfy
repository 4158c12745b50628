/** Which attribute is printed under which name (internal/certinfo/name.go:100-123). */
module AttributeNames {
  import opened DistinguishedName

  lemma Small(n: nat)
    requires n < 100
    ensures Decimal(n) == if n < 10 then [Digit(n)] else [Digit(n / 10), Digit(n % 10)]
  {}

  lemma JoinTwo(first: string, more: seq<string>)
    requires more != []
    ensures Join([first] + more, '.') == first + "." + Join(more, '.')
  {
    assert ([first] + more)[1..] == more;
  }

  lemma DottedMore(v: nat, oid: Oid)
    requires oid != []
    ensures Dotted([v] + oid) == Decimal(v) + "." + Dotted(oid) && Dotted([v]) == Decimal(v)
  {
    assert Arcs([v] + oid) == [Decimal(v)] + Arcs(oid);
    JoinTwo(Decimal(v), Arcs(oid));
  }

  /** The attributes of X.520. */
  lemma Under(n: nat)
    requires n < 100
    ensures Dotted([2, 5, 4, n]) == "2.5.4." + Decimal(n)
  {
    hide Dotted;
    DottedMore(n, [n]);
    DottedMore(4, [n]);
    DottedMore(5, [4, n]);
    DottedMore(2, [5, 4, n]);
    Small(2);
    Small(4);
    Small(5);
    assert [4] + [n] == [4, n] && [5] + [4, n] == [5, 4, n] && [2] + [5, 4, n] == [2, 5, 4, n];
  }

  lemma Named(n: nat, d: string)
    requires n < 100 && d == "2.5.4." + (if n < 10 then [Digit(n)] else [Digit(n / 10), Digit(n % 10)])
    ensures AttributeName([2, 5, 4, n]) == if d in ATTRIBUTE_NAMES then ATTRIBUTE_NAMES[d] else d
  {
    hide Dotted, ATTRIBUTE_NAMES;
    Under(n);
    Small(n);
  }

  lemma FirstNames()
    ensures AttributeName([2, 5, 4, 3]) == "CN" && AttributeName([2, 5, 4, 4]) == "SN"
    ensures AttributeName([2, 5, 4, 5]) == "SERIALNUMBER" && AttributeName([2, 5, 4, 6]) == "C"
    ensures AttributeName([2, 5, 4, 7]) == "L" && AttributeName([2, 5, 4, 8]) == "ST"
    ensures AttributeName([2, 5, 4, 9]) == "STREET"
  {
    hide AttributeName;
    Named(3, "2.5.4.3");
    Named(4, "2.5.4.4");
    Named(5, "2.5.4.5");
    Named(6, "2.5.4.6");
    Named(7, "2.5.4.7");
    Named(8, "2.5.4.8");
    Named(9, "2.5.4.9");
  }

  lemma LaterNames()
    ensures AttributeName([2, 5, 4, 10]) == "O" && AttributeName([2, 5, 4, 11]) == "OU"
    ensures AttributeName([2, 5, 4, 12]) == "title" && AttributeName([2, 5, 4, 15]) == "businessCategory"
    ensures AttributeName([2, 5, 4, 17]) == "POSTALCODE" && AttributeName([2, 5, 4, 42]) == "GN"
    ensures AttributeName([2, 5, 4, 65]) == "pseudonym" && AttributeName([2, 5, 4, 97]) == "organizationIdentifier"
  {
    hide AttributeName;
    Named(10, "2.5.4.10");
    Named(11, "2.5.4.11");
    Named(12, "2.5.4.12");
    Named(15, "2.5.4.15");
    Named(17, "2.5.4.17");
    Named(42, "2.5.4.42");
    Named(65, "2.5.4.65");
    Named(97, "2.5.4.97");
  }

  /** The names of section 3 of RFC 4514 and section 2 of RFC 4519, and others of X.520. */
  lemma DirectoryNames()
    ensures AttributeName([2, 5, 4, 3]) == "CN" && AttributeName([2, 5, 4, 4]) == "SN"
    ensures AttributeName([2, 5, 4, 5]) == "SERIALNUMBER" && AttributeName([2, 5, 4, 6]) == "C"
    ensures AttributeName([2, 5, 4, 7]) == "L" && AttributeName([2, 5, 4, 8]) == "ST"
    ensures AttributeName([2, 5, 4, 9]) == "STREET" && AttributeName([2, 5, 4, 10]) == "O"
    ensures AttributeName([2, 5, 4, 11]) == "OU" && AttributeName([2, 5, 4, 12]) == "title"
    ensures AttributeName([2, 5, 4, 15]) == "businessCategory" && AttributeName([2, 5, 4, 17]) == "POSTALCODE"
    ensures AttributeName([2, 5, 4, 42]) == "GN" && AttributeName([2, 5, 4, 65]) == "pseudonym"
    ensures AttributeName([2, 5, 4, 97]) == "organizationIdentifier"
  {
    hide AttributeName;
    FirstNames();
    LaterNames();
  }

  /** The attributes a parsed name keeps in fields of its own are exactly those printed under nine of
      these names; a name assembled from its fields has the others put before them. */
  lemma FieldsByName(oid: Oid)
    ensures ParsedIntoField(oid) <==>
            AttributeName(oid) in {"CN", "SERIALNUMBER", "C", "L", "ST", "STREET", "O", "OU", "POSTALCODE"}
  {
    hide AttributeName;
    var nine: set<nat> := {3, 5, 6, 7, 8, 9, 10, 11, 17};
    DirectoryNames();
    forall n: nat | n in nine && AttributeName([2, 5, 4, n]) == AttributeName(oid)
      ensures ParsedIntoField(oid)
    {
      NamesDistinct([2, 5, 4, n], oid);
      Field(n);
    }
    assert ParsedIntoField(oid) ==> oid == [2, 5, 4, oid[3]] && oid[3] in nine;
  }

  lemma Field(n: nat)
    ensures ParsedIntoField([2, 5, 4, n]) <==> n in {3, 5, 6, 7, 8, 9, 10, 11, 17}
  {
    assert [2, 5, 4, n][..3] == [2, 5, 4];
  }

  // ---- Names of other origins ----

  lemma Tens(n: nat, d: nat)
    requires d < 10 && n > 0
    ensures Decimal(10 * n + d) == Decimal(n) + [Digit(d)]
  {
    assert (10 * n + d) / 10 == n && (10 * n + d) % 10 == d;
  }

  lemma More(n: nat, s: string, d: nat)
    requires n > 0 && d < 10 && Decimal(n) == s
    ensures Decimal(10 * n + d) == s + [Digit(d)]
  {
    Tens(n, d);
  }

  lemma HundredArc()
    ensures Decimal(100) == "100"
  {
    hide Decimal;
    Small(10);
    More(10, "10", 0);
  }

  lemma VendorArc()
    ensures Decimal(311) == "311"
  {
    hide Decimal;
    Small(31);
    More(31, "31", 1);
  }

  lemma CountryArc()
    ensures Decimal(840) == "840"
  {
    hide Decimal;
    Small(84);
    More(84, "84", 0);
  }

  lemma PilotArc()
    ensures Decimal(2342) == "2342"
  {
    hide Decimal;
    Small(23);
    More(23, "23", 4);
    More(234, "234", 2);
  }

  lemma MailArc()
    ensures Decimal(113549) == "113549"
  {
    hide Decimal;
    Small(11);
    More(11, "11", 3);
    More(113, "113", 5);
    More(1135, "1135", 4);
    More(11354, "11354", 9);
  }

  lemma NetworkArc()
    ensures Decimal(19200300) == "19200300"
  {
    hide Decimal;
    Small(19);
    More(19, "19", 2);
    More(192, "192", 0);
    More(1920, "1920", 0);
    More(19200, "19200", 3);
    More(192003, "192003", 0);
    More(1920030, "1920030", 0);
  }

  /** An arc before a name, its text left as it is put together. */
  function Before(s: string, rest: string): string {
    s + "." + rest
  }

  lemma Prefixed(v: nat, s: string, oid: Oid, dotted: string)
    requires oid != [] && Dotted(oid) == dotted && Decimal(v) == s
    ensures Dotted([v] + oid) == Before(s, dotted) && [v] + oid != []
  {
    DottedMore(v, oid);
  }

  lemma ComponentDotted()
    ensures Dotted([0, 9, 2342, 19200300, 100, 1, 25]) == "0.9.2342.19200300.100.1.25"
  {
    hide Dotted, Decimal, Before;
    HundredArc();
    PilotArc();
    NetworkArc();
    Small(0);
    Small(1);
    Small(9);
    Small(25);
    var tail := Before("100", Before("1", "25"));
    var ending: Oid := [100] + ([1] + [25]);
    DottedMore(25, [25]);
    Prefixed(1, "1", [25], "25");
    Prefixed(100, "100", [1] + [25], Before("1", "25"));
    Prefixed(19200300, "19200300", ending, tail);
    Prefixed(2342, "2342", [19200300] + ending, Before("19200300", tail));
    Prefixed(9, "9", [2342] + ([19200300] + ending), Before("2342", Before("19200300", tail)));
    Prefixed(0, "0", [9] + ([2342] + ([19200300] + ending)), Before("9", Before("2342", Before("19200300", tail))));
    assert [0] + ([9] + ([2342] + ([19200300] + ending))) == [0, 9, 2342, 19200300, 100, 1, 25];
    ComponentText(tail);
  }

  lemma ComponentText(tail: string)
    requires tail == Before("100", Before("1", "25"))
    ensures Before("0", Before("9", Before("2342", Before("19200300", tail)))) == "0.9.2342.19200300.100.1.25"
  {
    assert tail == "100.1.25";
    assert Before("2342", Before("19200300", tail)) == "2342.19200300." + tail;
  }

  lemma ComponentName()
    ensures AttributeName([0, 9, 2342, 19200300, 100, 1, 25]) == "DC"
  {
    hide Dotted;
    ComponentDotted();
  }

  lemma MailDotted()
    ensures Dotted([1, 2, 840, 113549, 1, 9, 1]) == "1.2.840.113549.1.9.1"
  {
    hide Dotted, Decimal, Before;
    CountryArc();
    MailArc();
    Small(1);
    Small(2);
    Small(9);
    var tail := Before("1", Before("9", "1"));
    var ending: Oid := [1] + ([9] + [1]);
    DottedMore(1, [1]);
    Prefixed(9, "9", [1], "1");
    Prefixed(1, "1", [9] + [1], Before("9", "1"));
    Prefixed(113549, "113549", ending, tail);
    Prefixed(840, "840", [113549] + ending, Before("113549", tail));
    Prefixed(2, "2", [840] + ([113549] + ending), Before("840", Before("113549", tail)));
    Prefixed(1, "1", [2] + ([840] + ([113549] + ending)), Before("2", Before("840", Before("113549", tail))));
    assert [1] + ([2] + ([840] + ([113549] + ending))) == [1, 2, 840, 113549, 1, 9, 1];
    MailText(tail);
  }

  lemma MailText(tail: string)
    requires tail == Before("1", Before("9", "1"))
    ensures Before("1", Before("2", Before("840", Before("113549", tail)))) == "1.2.840.113549.1.9.1"
  {
    assert tail == "1.9.1";
  }

  lemma MailName()
    ensures AttributeName([1, 2, 840, 113549, 1, 9, 1]) == "emailAddress"
  {
    hide Dotted;
    MailDotted();
  }

  lemma JurisdictionEnds(n: nat)
    requires 0 < n < 4
    ensures Dotted([311] + ([60] + ([2] + ([1] + [n])))) == "311.60.2.1." + [Digit(n)]
  {
    hide Dotted, Decimal;
    VendorArc();
    Small(n);
    Small(1);
    Small(2);
    Small(60);
    DottedMore(n, [n]);
    Prefixed(1, "1", [n], [Digit(n)]);
    Prefixed(2, "2", [1] + [n], Before("1", [Digit(n)]));
    Prefixed(60, "60", [2] + ([1] + [n]), Before("2", Before("1", [Digit(n)])));
    Prefixed(311, "311", [60] + ([2] + ([1] + [n])), Before("60", Before("2", Before("1", [Digit(n)]))));
    assert Before("2", Before("1", [Digit(n)])) == "2.1." + [Digit(n)];
  }

  lemma JurisdictionDotted(n: nat)
    requires 0 < n < 4
    ensures Dotted([1, 3, 6, 1, 4, 1, 311, 60, 2, 1, n]) == "1.3.6.1.4.1." + ("311.60.2.1." + [Digit(n)])
  {
    hide Dotted, Decimal, Before;
    var ending: Oid := [311] + ([60] + ([2] + ([1] + [n])));
    var tail := "311.60.2.1." + [Digit(n)];
    JurisdictionEnds(n);
    Small(1);
    Small(3);
    Small(4);
    Small(6);
    Prefixed(1, "1", ending, tail);
    Prefixed(4, "4", [1] + ending, Before("1", tail));
    Prefixed(1, "1", [4] + ([1] + ending), Before("4", Before("1", tail)));
    Prefixed(6, "6", [1] + ([4] + ([1] + ending)), Before("1", Before("4", Before("1", tail))));
    Prefixed(3, "3", [6] + ([1] + ([4] + ([1] + ending))), Before("6", Before("1", Before("4", Before("1", tail)))));
    Prefixed(1, "1", [3] + ([6] + ([1] + ([4] + ([1] + ending)))),
             Before("3", Before("6", Before("1", Before("4", Before("1", tail))))));
    assert [1] + ([3] + ([6] + ([1] + ([4] + ([1] + ending))))) == [1, 3, 6, 1, 4, 1, 311, 60, 2, 1, n];
    JurisdictionText(tail);
  }

  lemma JurisdictionText(tail: string)
    ensures Before("1", Before("3", Before("6", Before("1", Before("4", Before("1", tail)))))) == "1.3.6.1.4.1." + tail
  {
    assert Before("1", Before("4", Before("1", tail))) == "1.4.1." + tail;
  }

  lemma Jurisdiction(n: nat, d: string)
    requires 0 < n < 4 && d == "1.3.6.1.4.1." + ("311.60.2.1." + [Digit(n)])
    ensures AttributeName([1, 3, 6, 1, 4, 1, 311, 60, 2, 1, n]) ==
            if d in ATTRIBUTE_NAMES then ATTRIBUTE_NAMES[d] else d
  {
    hide Dotted, ATTRIBUTE_NAMES;
    JurisdictionDotted(n);
  }

  /** The names that are not X.520's. */
  lemma OtherNames()
    ensures AttributeName([0, 9, 2342, 19200300, 100, 1, 25]) == "DC"
    ensures AttributeName([1, 2, 840, 113549, 1, 9, 1]) == "emailAddress"
    ensures AttributeName([1, 3, 6, 1, 4, 1, 311, 60, 2, 1, 1]) == "jurisdictionL"
    ensures AttributeName([1, 3, 6, 1, 4, 1, 311, 60, 2, 1, 2]) == "jurisdictionST"
    ensures AttributeName([1, 3, 6, 1, 4, 1, 311, 60, 2, 1, 3]) == "jurisdictionC"
  {
    hide AttributeName;
    ComponentName();
    MailName();
    Jurisdiction(1, "1.3.6.1.4.1.311.60.2.1.1");
    Jurisdiction(2, "1.3.6.1.4.1.311.60.2.1.2");
    Jurisdiction(3, "1.3.6.1.4.1.311.60.2.1.3");
  }
}
