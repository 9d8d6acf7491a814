/** Projection of raw legislator records, as parsed from the dataset, onto the flat member
    records the age table shows. */
module Members {
  import opened Calendar

  /** One term of service as the dataset lists it; `kind` is "rep" or "sen". */
  datatype Term = Term(kind: string, state: string, party: string)

  /** A legislator as the dataset lists it. `birthday` is the parsed birth date. */
  datatype Legislator = Legislator(
    first: string,
    last: string,
    birthday: Date,
    bioguide: string,
    terms: seq<Term>)

  /** The flat record built for each legislator. */
  datatype Member = Member(
    name: string,
    role: string,
    state: string,
    party: string,
    birthDate: Date,
    photoUrl: string)

  /** Outcome of projecting the whole dataset: every record, or the position of the first
      legislator without a term, at which the projection stops with an error. */
  datatype Projection = Projected(members: seq<Member>) | NoTerms(index: nat)

  const PhotoBase: string := "https://unitedstates.github.io/images/congress/225x275/"

  /** The latest term is the last one listed. */
  function LatestTerm(terms: seq<Term>): (t: Term)
    requires |terms| > 0
    ensures terms == terms[..|terms| - 1] + [t]
  {
    terms[|terms| - 1]
  }

  /** First and last name joined by one space. */
  function FullName(first: string, last: string): (name: string)
    ensures |name| == |first| + 1 + |last|
    ensures name[..|first|] == first && name[|first|] == ' ' && name[|first| + 1..] == last
  {
    first + " " + last
  }

  /** Splits a name at its first space; a name without a space is all first name. */
  function SplitName(name: string): (string, string)
  {
    if name == [] then ("", "")
    else if name[0] == ' ' then ("", name[1..])
    else
      var (first, last) := SplitName(name[1..]);
      ([name[0]] + first, last)
  }

  /** A first name without a space is recovered, with the last name, from the joined name. */
  lemma {:induction false} SplitFullName(first: string, last: string)
    requires ' ' !in first
    ensures SplitName(FullName(first, last)) == (first, last)
  {
    if first != [] {
      assert FullName(first, last)[1..] == FullName(first[1..], last);
      SplitFullName(first[1..], last);
      assert [first[0]] + first[1..] == first;
    }
  }

  /** The title shown for a term kind: "Rep." for "rep", "Sen." for every other kind. */
  function Role(kind: string): (role: string)
    ensures role == "Rep." <==> kind == "rep"
    ensures role == "Rep." || role == "Sen."
  {
    if kind == "rep" then "Rep." else "Sen."
  }

  /** The record for one legislator. The legislator must have a term: without one there is
      no latest term to read. */
  function Project(l: Legislator): (m: Member)
    requires |l.terms| > 0
    ensures m.role == "Rep." <==> l.terms[|l.terms| - 1].kind == "rep"
    ensures m.role == "Rep." || m.role == "Sen."
    ensures m.state == l.terms[|l.terms| - 1].state
    ensures m.party == l.terms[|l.terms| - 1].party
    ensures m.name == FullName(l.first, l.last)
    ensures ' ' !in l.first ==> SplitName(m.name) == (l.first, l.last)
    ensures m.birthDate == l.birthday
  {
    var latest := LatestTerm(l.terms);
    assert ' ' !in l.first ==> SplitName(FullName(l.first, l.last)) == (l.first, l.last) by {
      if ' ' !in l.first { SplitFullName(l.first, l.last); }
    }
    Member(
      FullName(l.first, l.last),
      Role(latest.kind),
      latest.state,
      latest.party,
      l.birthday,
      PhotoBase + l.bioguide + ".jpg")
  }

  /** Projects every legislator, in order. The projection fails at the first legislator
      without a term, after the ones before it were projected. */
  function ProjectAll(data: seq<Legislator>): (p: Projection)
    ensures p.Projected? <==> forall i :: 0 <= i < |data| ==> |data[i].terms| > 0
    ensures p.Projected? ==>
      |p.members| == |data| &&
      forall i :: 0 <= i < |data| ==> |data[i].terms| > 0 && p.members[i] == Project(data[i])
    ensures p.NoTerms? ==>
      p.index < |data| && data[p.index].terms == [] &&
      forall i :: 0 <= i < p.index ==> |data[i].terms| > 0
  {
    if data == [] then Projected([])
    else if data[0].terms == [] then NoTerms(0)
    else
      match ProjectAll(data[1..])
      case Projected(rest) => Projected([Project(data[0])] + rest)
      case NoTerms(k) => NoTerms(k + 1)
  }
}
