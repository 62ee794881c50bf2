/** A person of the course: student, teaching staff or the course robot. */
module PersonModel {

  import opened Outcome
  import opened Text
  import Sorting

  /** A non-empty list of names to address someone by. */
  type Aliases = s: seq<string> | |s| > 0 witness [""]

  /**
   * `groups` is the list `load_course` fills in; a person built without groups
   * has the empty list here.
   */
  datatype Person = Person(
    name: string,
    emails: Option<seq<string>>,
    pgpKey: Option<string>,
    aliases: Aliases,
    groups: seq<string>)

  /** The constructor: without aliases (or with an empty list) the name is the only alias. */
  function NewPerson(name: string, emails: Option<seq<string>> := None, pgpKey: Option<string> := None,
                     aliases: seq<string> := [], groups: seq<string> := []): (p: Person)
    ensures p.name == name && p.emails == emails && p.pgpKey == pgpKey && p.groups == groups
    ensures aliases != [] ==> p.aliases == aliases
    ensures aliases == [] ==> p.aliases == [name]
  {
    Person(name, emails, pgpKey, if aliases == [] then [name] else aliases, groups)
  }

  /** The name to address the person by directly. */
  function Alias(p: Person): string
  {
    p.aliases[0]
  }

  /** Without a nickname a person is addressed by name; with one, by the first alias. */
  lemma AliasOfNew(name: string, emails: Option<seq<string>>, pgpKey: Option<string>,
                   aliases: seq<string>, groups: seq<string>)
    ensures aliases == [] ==> Alias(NewPerson(name, emails, pgpKey, aliases, groups)) == name
    ensures aliases != [] ==> Alias(NewPerson(name, emails, pgpKey, aliases, groups)) == aliases[0]
  {
  }

  /** `str(person)`: the name, wrapped so it can be read back. */
  function PersonString(p: Person): (r: string)
    ensures |r| == |p.name| + 9
    ensures r[..8] == "<Person " && r[|r| - 1] == '>'
    ensures r[8..|r| - 1] == p.name
  {
    "<Person " + p.name + ">"
  }

  /** `person < other`: by name. */
  predicate PersonLt(a: Person, b: Person)
  {
    StrLt(a.name, b.name)
  }

  lemma PersonLtStrict()
    ensures forall a: Person :: !PersonLt(a, a)
    ensures forall a: Person, b: Person, c: Person :: PersonLt(a, b) && PersonLt(b, c) ==> PersonLt(a, c)
  {
    forall a: Person
      ensures !PersonLt(a, a)
    {
      StrLtIrreflexive(a.name);
    }
    forall a: Person, b: Person, c: Person | PersonLt(a, b) && PersonLt(b, c)
      ensures PersonLt(a, c)
    {
      StrLtTransitive(a.name, b.name, c.name);
    }
  }

  /** Two people are unordered exactly when they share a name. */
  lemma PersonUnorderedIffSameName(a: Person, b: Person)
    ensures !PersonLt(a, b) && !PersonLt(b, a) <==> a.name == b.name
  {
    if a.name == b.name {
      StrLtIrreflexive(a.name);
    } else {
      StrLtTotal(a.name, b.name);
    }
  }

  /** Membership in the staff groups that may act on grades. */
  predicate IsAdmin(p: Person)
  {
    "professors" in p.groups || "assistants" in p.groups
  }

  lemma PersonStrictOrder()
    ensures Sorting.StrictOrder(PersonLt)
  {
    PersonLtStrict();
  }

  /** People are tied exactly when their names agree, so ties are transitive and `sorted` keeps same-named people in order. */
  lemma PersonTiesTransitive()
    ensures Sorting.TiesTransitive(PersonLt)
  {
    forall a: Person, b: Person, c: Person | Sorting.Tied(PersonLt, a, b) && Sorting.Tied(PersonLt, b, c)
      ensures Sorting.Tied(PersonLt, a, c)
    {
      PersonUnorderedIffSameName(a, b);
      PersonUnorderedIffSameName(b, c);
      PersonUnorderedIffSameName(a, c);
    }
  }
}
