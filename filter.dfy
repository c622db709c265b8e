/** The search box: keep the records for which some field, lower-cased, contains
    the lower-cased query. */
module Filter {
  import Text
  import opened Clients

  /** The callback given to `allClients.filter`: id, name, mobile, email, city, in that order. */
  predicate Matches(c: Client, query: string) {
    var q := Text.Lower(query);
    Text.Includes(Text.Lower(FieldText(c, Id)), q) ||
    Text.Includes(Text.Lower(c.name), q) ||
    Text.Includes(Text.Lower(c.mobile), q) ||
    Text.Includes(Text.Lower(c.email), q) ||
    Text.Includes(Text.Lower(c.city), q)
  }

  /** A record matches exactly when one of its five fields contains the query at some
      position, ignoring ASCII case. */
  lemma MatchesIff(c: Client, query: string)
    ensures Matches(c, query) <==>
            exists f: Field, i: int :: Text.OccursAt(Text.Lower(FieldText(c, f)), Text.Lower(query), i)
  {
    var q := Text.Lower(query);
    forall f: Field {
      Text.IncludesIff(Text.Lower(FieldText(c, f)), q);
    }
    assert Matches(c, query) <==> exists f: Field :: Text.Includes(Text.Lower(FieldText(c, f)), q) by {
      if exists f: Field :: Text.Includes(Text.Lower(FieldText(c, f)), q) {
        var f: Field :| Text.Includes(Text.Lower(FieldText(c, f)), q);
        match f
        case Id =>
        case Name =>
        case Mobile =>
        case Email =>
        case City =>
      }
    }
  }

  /** Queries that agree after lower-casing select the same records. */
  lemma MatchesIgnoresCase(c: Client, q1: string, q2: string)
    requires Text.Lower(q1) == Text.Lower(q2)
    ensures Matches(c, q1) == Matches(c, q2)
  {
  }

  /** `allClients.filter(...)`: the matching records, in their original order. */
  function FilterClients(s: seq<Client>, query: string): (r: seq<Client>)
    ensures |r| <= |s|
    ensures forall c :: c in r ==> c in s && Matches(c, query)
    decreases |s|
  {
    if |s| == 0 then []
    else if Matches(s[0], query) then [s[0]] + FilterClients(s[1..], query)
    else FilterClients(s[1..], query)
  }

  /** `sub` can be obtained from `s` by deleting elements. */
  predicate IsSubsequence(sub: seq<Client>, s: seq<Client>)
    decreases |s|
  {
    if |sub| == 0 then true
    else if |s| == 0 then false
    else if sub[0] == s[0] then IsSubsequence(sub[1..], s[1..])
    else IsSubsequence(sub, s[1..])
  }

  /** The result keeps the input's order and holds every matching record, each as often
      as it occurs in the input. */
  lemma {:induction false} FilterSpec(s: seq<Client>, query: string)
    ensures IsSubsequence(FilterClients(s, query), s)
    ensures forall c :: c in s && Matches(c, query) ==> c in FilterClients(s, query)
    ensures forall c :: multiset(FilterClients(s, query))[c] ==
                        if Matches(c, query) then multiset(s)[c] else 0
    decreases |s|
  {
    if |s| > 0 {
      FilterSpec(s[1..], query);
      assert s == [s[0]] + s[1..];
    }
  }

  /** The filtered collection is drawn from the collection it was filtered from. */
  lemma FilterSubMultiset(s: seq<Client>, query: string)
    ensures multiset(FilterClients(s, query)) <= multiset(s)
  {
    FilterSpec(s, query);
  }

  /** If every record matches, filtering changes nothing. */
  lemma {:induction false} FilterAllMatch(s: seq<Client>, query: string)
    requires forall c :: c in s ==> Matches(c, query)
    ensures FilterClients(s, query) == s
    decreases |s|
  {
    if |s| > 0 {
      FilterAllMatch(s[1..], query);
      assert s == [s[0]] + s[1..];
    }
  }

  /** The empty query matches every record, so it leaves the collection as it is;
      clearing the search box does not bring back records an earlier search removed. */
  lemma FilterEmptyQuery(s: seq<Client>)
    ensures FilterClients(s, "") == s
  {
    forall c | c in s ensures Matches(c, "") {
      Text.IncludesEmpty(Text.Lower(FieldText(c, Id)));
    }
    FilterAllMatch(s, "");
  }

  /** Repeating a search changes nothing. */
  lemma FilterIdempotent(s: seq<Client>, query: string)
    ensures FilterClients(FilterClients(s, query), query) == FilterClients(s, query)
  {
    FilterAllMatch(FilterClients(s, query), query);
  }

  /** Two successive searches keep the records that match both, whichever ran first. */
  lemma {:induction false} FilterTwice(s: seq<Client>, q1: string, q2: string)
    ensures FilterClients(FilterClients(s, q1), q2) ==
            FilterClients(FilterClients(s, q2), q1)
    decreases |s|
  {
    if |s| > 0 {
      FilterTwice(s[1..], q1, q2);
    }
  }

  /** A record whose field contains the longer query also contains any part of it. */
  lemma MatchesNarrower(c: Client, q1: string, q2: string)
    requires Text.Includes(Text.Lower(q2), Text.Lower(q1))
    requires Matches(c, q2)
    ensures Matches(c, q1)
  {
    var l1, l2 := Text.Lower(q1), Text.Lower(q2);
    if Text.Includes(Text.Lower(FieldText(c, Id)), l2) {
      Text.IncludesTransitive(Text.Lower(FieldText(c, Id)), l2, l1);
    } else if Text.Includes(Text.Lower(c.name), l2) {
      Text.IncludesTransitive(Text.Lower(c.name), l2, l1);
    } else if Text.Includes(Text.Lower(c.mobile), l2) {
      Text.IncludesTransitive(Text.Lower(c.mobile), l2, l1);
    } else if Text.Includes(Text.Lower(c.email), l2) {
      Text.IncludesTransitive(Text.Lower(c.email), l2, l1);
    } else {
      Text.IncludesTransitive(Text.Lower(c.city), l2, l1);
    }
  }

  /** Typing further characters into the search box: when the new query contains the
      previous one, narrowing the already narrowed collection gives the same records as
      searching the earlier collection with the new query directly. */
  lemma {:induction false} FilterNarrowing(s: seq<Client>, q1: string, q2: string)
    requires Text.Includes(Text.Lower(q2), Text.Lower(q1))
    ensures FilterClients(FilterClients(s, q1), q2) == FilterClients(s, q2)
    decreases |s|
  {
    if |s| > 0 {
      FilterNarrowing(s[1..], q1, q2);
      if Matches(s[0], q2) {
        MatchesNarrower(s[0], q1, q2);
      }
    }
  }

  /** Searching "BOS" finds a record in "Boston" and one in "boston". */
  lemma BostonEitherCase()
    ensures Matches(Client(1, "Ann", "555", "ann@mail", "Boston"), "BOS")
    ensures Matches(Client(2, "Bob", "556", "bob@mail", "boston"), "BOS")
  {
    assert Text.Lower("BOS") == "bos";
    assert Text.Lower("Boston") == "boston" && Text.Lower("boston") == "boston";
    assert Text.IsPrefix("bos", "boston");
  }
}
