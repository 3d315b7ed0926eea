/** `countUsersByEmailDomain`: how many users have each email domain. */
module EmailDomains {
  import opened Wrappers
  import JsArray
  import JsString
  import opened Counting

  datatype User = User(id: string, email: string)

  /** `email.split("@").at(-1) ?? ""`. The `""` fallback is never taken,
      because `split` always yields at least one piece. */
  function Domain(email: string): (d: string)
    ensures JsArray.AtLast(JsString.Split(email, '@')) == Some(d)
  {
    JsArray.AtLast(JsString.Split(email, '@')).GetOr("")
  }

  /** The domain is the part of the email after its last `@`, taken as raw
      text (no case folding): an `@`-free suffix of the email that is either
      the whole email or preceded by an `@`. */
  lemma DomainIsAfterLastAt(email: string)
    ensures JsString.IsLastSegment(email, '@', Domain(email))
  {
    JsString.SplitLastSegment(email, '@');
  }

  function UserDomain(u: User): string {
    Domain(u.email)
  }

  /** The domains of `users`, in order. */
  function Domains(users: seq<User>): (ds: seq<string>)
    ensures |ds| == |users|
    ensures forall i | 0 <= i < |users| :: ds[i] == Domain(users[i].email)
  {
    JsArray.Map(users, UserDomain)
  }

  /** An email with no `@` is counted under the whole email. */
  lemma NoAtIsWholeEmail(email: string)
    requires '@' !in email
    ensures Domain(email) == email
  {
    assert email[0..] == email;
    DomainIsAfterLastAt(email);
    JsString.LastSegmentUnique(email, '@', Domain(email), email);
  }

  /** `local@host` with an `@`-free `host` is counted under `host`, whatever
      `local` holds. */
  lemma DomainAfterLastAt(email: string, local: string, host: string)
    requires email == local + "@" + host && '@' !in host
    ensures Domain(email) == host
  {
    assert email[|email| - |host|..] == host;
    assert email[|email| - |host| - 1] == '@';
    DomainIsAfterLastAt(email);
    JsString.LastSegmentUnique(email, '@', Domain(email), host);
  }

  /** The counting loop. The record it returns maps each domain that occurs
      to the number of users with that domain, has no other keys, and its
      counts add up to the number of users. */
  method CountUsersByEmailDomain(users: seq<User>) returns (result: map<string, nat>)
    ensures result == Tally(Domains(users))
    ensures forall d :: d in result <==> exists u | u in users :: Domain(u.email) == d
    ensures forall d | d in result :: result[d] == multiset(Domains(users))[d] >= 1
    ensures MapSum(result) == |users|
  {
    result := map[];
    for i := 0 to |users|
      invariant result == Tally(Domains(users[..i]))
    {
      var domain := Domain(users[i].email);
      DomainsSnoc(users, i);
      TallySnoc(Domains(users[..i]), domain);
      result := Bump(result, domain);
    }
    assert users[..|users|] == users;
    TallySum(Domains(users));
    DomainKeys(users);
  }

  lemma DomainsSnoc(users: seq<User>, i: nat)
    requires i < |users|
    ensures Domains(users[..i + 1]) == Domains(users[..i]) + [Domain(users[i].email)]
  {
  }

  /** The domains present are those of some user. */
  lemma DomainKeys(users: seq<User>)
    ensures forall d :: d in Tally(Domains(users)) <==> exists u | u in users :: Domain(u.email) == d
  {
    forall d ensures d in Domains(users) <==> exists u | u in users :: Domain(u.email) == d {
      if d in Domains(users) {
        var k :| 0 <= k < |users| && Domains(users)[k] == d;
        assert users[k] in users;
      }
    }
  }

  /** Reordering the users does not change the counts. */
  lemma PermutedUsersSameCounts(users: seq<User>, users': seq<User>)
    requires multiset(users) == multiset(users')
    ensures Tally(Domains(users)) == Tally(Domains(users'))
  {
    JsArray.MapPermutation(users, users', UserDomain);
    TallyPermutation(Domains(users), Domains(users'));
  }

  /** The sample: two gmail.com users and one yahoo.com user. */
  lemma SampleCounts(users: seq<User>)
    requires users == [User("1", "alice@gmail.com"), User("2", "bob@gmail.com"),
                       User("3", "carol@yahoo.com")]
    ensures Tally(Domains(users)) == map["gmail.com" := 2, "yahoo.com" := 1]
  {
    assert users[0].email == "alice" + "@" + "gmail.com";
    assert users[1].email == "bob" + "@" + "gmail.com";
    assert users[2].email == "carol" + "@" + "yahoo.com";
    TwoDomains(users, "gmail.com", "yahoo.com");
    SampleTally(Domains(users));
  }

  /** Three users, the first two at domain `g` and the third at domain `y`,
      whatever their local parts, are counted as `g`: 2, `y`: 1. */
  lemma TwoDomains(users: seq<User>, g: string, y: string)
    requires |users| == 3 && '@' !in g && '@' !in y
    requires exists l :: users[0].email == l + "@" + g
    requires exists l :: users[1].email == l + "@" + g
    requires exists l :: users[2].email == l + "@" + y
    ensures Domains(users) == [g, g, y]
  {
    var l0 :| users[0].email == l0 + "@" + g;
    var l1 :| users[1].email == l1 + "@" + g;
    var l2 :| users[2].email == l2 + "@" + y;
    DomainAfterLastAt(users[0].email, l0, g);
    DomainAfterLastAt(users[1].email, l1, g);
    DomainAfterLastAt(users[2].email, l2, y);
  }

  lemma SampleTally(ds: seq<string>)
    requires ds == ["gmail.com", "gmail.com", "yahoo.com"]
    ensures Tally(ds) == map["gmail.com" := 2, "yahoo.com" := 1]
  {
    var r := Tally(ds);
    assert r.Keys == {"gmail.com", "yahoo.com"};
    assert multiset(ds) == multiset{"gmail.com", "gmail.com", "yahoo.com"};
    assert r["gmail.com"] == 2 && r["yahoo.com"] == 1;
  }
}
