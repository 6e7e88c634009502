/** Person and family records of one batch, as the record store hands them to
    the SVG generator, and the pure helpers the generator applies to them:
    spouse selection, name normalisation, event dates and the family list of
    a person. */
module Records {
  import opened Wrappers
  import opened Php

  /** Person and family ids are opaque strings. */
  type Id = string

  /** A BIRT or DEAT event; only its DATE matters here. */
  datatype Event = Event(date: Option<string>)

  /** A person record: NAME, SEX, BIRT, DEAT and the FAMS (family as spouse)
      and FAMC (family as child) references; an absent reference list is []. */
  datatype Person = Person(
    name: Option<string>,
    sex: Option<string>,
    birth: Option<Event>,
    death: Option<Event>,
    fams: seq<Id>,
    famc: seq<Id>)

  /** A family record: HUSB, WIFE and the CHIL references in order. */
  datatype Family = Family(husb: Option<Id>, wife: Option<Id>, children: seq<Id>)

  /** The records of one batch, plus what the WordPress layer resolves per
      person id: the permalink of the person's page and the thumbnail URL of
      the first attached image. A missing key is a lookup that found nothing. */
  datatype Db = Db(
    people: map<Id, Person>,
    families: map<Id, Family>,
    permalinks: map<Id, string>,
    photos: map<Id, string>)

  function Lookup<K, V>(m: map<K, V>, k: K): (r: Option<V>)
    ensures r.Some? <==> k in m
    ensures r.Some? ==> r.value == m[k]
  {
    if k in m then Some(m[k]) else None
  }

  /** A HUSB or WIFE reference that PHP treats as true once read as text. */
  predicate RefPresent(r: Option<Id>) {
    r.Some? && Truthy(r.value)
  }

  /** A HUSB or WIFE element that PHP treats as true: `$family->HUSB` is the
      list of HUSB children, and SimpleXML casts it to true as soon as one
      such child exists, whatever its text (even "" or "0"). */
  predicate ElementPresent(r: Option<Id>) {
    r.Some?
  }

  /** `get_spouse_id`: the husband's id when his element is present and his
      id is not `person`, otherwise the wife's under the same test, otherwise
      none. The result may be "" or "0", which the caller then treats as none. */
  function SpouseId(family: Family, person: Id): (r: Option<Id>)
    ensures ElementPresent(family.husb) && family.husb.value != person ==> r == family.husb
    ensures !(ElementPresent(family.husb) && family.husb.value != person) ==>
              (r.Some? <==> ElementPresent(family.wife) && family.wife.value != person)
    ensures r.Some? ==> r.value != person && (r == family.husb || r == family.wife)
  {
    if ElementPresent(family.husb) && family.husb.value != person then family.husb
    else if ElementPresent(family.wife) && family.wife.value != person then family.wife
    else None
  }

  // ---------------------------------------------------------------------
  // Names: trim, then replace every `\s*/X/` by " X"
  // ---------------------------------------------------------------------

  /** The longest prefix of `s` made of `\s` characters. */
  function SpaceRun(s: string): (r: string)
    ensures |r| <= |s| && r == s[..|r|] && AllSpaces(r)
    ensures |r| < |s| ==> !IsSpace(s[|r|])
    decreases |s|
  {
    if s != [] && IsSpace(s[0]) then [s[0]] + SpaceRun(s[1..]) else []
  }

  /** The longest prefix of `s` without a slash. */
  function NonSlashRun(s: string): (r: string)
    ensures |r| <= |s| && r == s[..|r|] && '/' !in r
    ensures |r| < |s| ==> s[|r|] == '/'
    decreases |s|
  {
    if s != [] && s[0] != '/' then [s[0]] + NonSlashRun(s[1..]) else []
  }

  /** A match of the pattern `\s*\/([^\/]+)\/` that starts at the first
      character of `s`: its length and the captured text. Greedy `\s*` and
      `[^\/]+` can only succeed at their longest runs, so no backtracking is
      needed. */
  function MarkerAt(s: string): (m: Option<(nat, string)>)
    ensures m.Some? ==> 0 < m.value.0 <= |s| && m.value.1 != [] && '/' !in m.value.1
  {
    var ws := SpaceRun(s);
    if |ws| < |s| && s[|ws|] == '/' then
      var body := NonSlashRun(s[|ws| + 1..]);
      var k := |ws| + 1 + |body|;
      if body != [] && k < |s| && s[k] == '/' then Some((k + 1, body)) else None
    else None
  }

  /** `preg_replace('/\s*\/([^\/]+)\//', ' $1', s)`: scanning left to right,
      every match is replaced by a space and the captured surname. */
  function StripMarkers(s: string): string
    decreases |s|
  {
    if s == [] then []
    else match MarkerAt(s)
      case Some((n, surname)) => " " + surname + StripMarkers(s[n..])
      case None => [s[0]] + StripMarkers(s[1..])
  }

  /** The display name of a person. */
  function FormatName(p: Person): string {
    StripMarkers(Trim(p.name.GetOr("")))
  }

  /** `s` without its trailing `\s` characters. */
  function DropTrailingSpaces(s: string): (r: string)
    ensures |r| <= |s| && r == s[..|r|]
    ensures r == [] || !IsSpace(r[|r| - 1])
    ensures forall k :: |r| <= k < |s| ==> IsSpace(s[k])
    decreases |s|
  {
    if s != [] && IsSpace(s[|s| - 1]) then DropTrailingSpaces(s[..|s| - 1]) else s
  }

  /** A name without slashes is left as it is. */
  lemma {:induction false} StripMarkersNoSlash(s: string)
    requires '/' !in s
    ensures StripMarkers(s) == s
    decreases |s|
  {
    if s != [] {
      var ws := SpaceRun(s);
      assert |ws| < |s| ==> s[|ws|] in s;
      assert MarkerAt(s).None?;
      StripMarkersNoSlash(s[1..]);
      assert s == [s[0]] + s[1..];
    }
  }

  /** A surname between slashes, followed by the rest of the name. */
  function Marked(surname: string, rest: string): string {
    "/" + surname + "/" + rest
  }

  /** A marked surname after a slash-free given name becomes a space and the
      surname; white space before the marker is absorbed into the match. */
  lemma {:induction false} StripMarkersSurname(given: string, surname: string, rest: string)
    requires '/' !in given && '/' !in surname && surname != []
    ensures StripMarkers(given + Marked(surname, rest))
         == DropTrailingSpaces(given) + (" " + surname + StripMarkers(rest))
    decreases |given|
  {
    var m := Marked(surname, rest);
    if AllSpaces(given) {
      // The match starts here: the white space run is all of `given`.
      MarkerAfterSpaces(given, surname, rest);
      DropAllSpaces(given);
      assert DropTrailingSpaces(given) == [];
    } else {
      // No match at the first character: its white space run, if any, is
      // followed by a character of `given` that is neither space nor slash.
      var g' := given[1..];
      NoMarkerInGiven(given, m);
      assert '/' !in g' by {
        forall c | c in g' ensures c in given { }
      }
      StripMarkersSurname(g', surname, rest);
      DropTrailingSpacesCons(given);
    }
  }

  lemma MarkerAfterSpaces(ws: string, surname: string, rest: string)
    requires AllSpaces(ws) && '/' !in surname && surname != []
    ensures StripMarkers(ws + Marked(surname, rest)) == " " + surname + StripMarkers(rest)
  {
    var s := ws + Marked(surname, rest);
    MarkerAtAfterSpaces(ws, surname, rest);
    StripAtMarker(s, |ws| + 2 + |surname|, surname);
  }

  /** One replacement at the front of the string. */
  lemma StripAtMarker(s: string, n: nat, surname: string)
    requires s != [] && MarkerAt(s) == Some((n, surname))
    ensures StripMarkers(s) == " " + surname + StripMarkers(s[n..])
  {
  }

  /** The pattern matches a marker after leading white space. */
  lemma MarkerAtAfterSpaces(ws: string, surname: string, rest: string)
    requires AllSpaces(ws) && '/' !in surname && surname != []
    ensures var s := ws + Marked(surname, rest);
      && MarkerAt(s) == Some((|ws| + 2 + |surname|, surname))
      && s[|ws| + 2 + |surname|..] == rest
  {
    var m := Marked(surname, rest);
    var s := ws + m;
    SpaceRunOver(ws, m);
    assert s[|ws|] == '/';
    var t := "/" + rest;
    assert s[|ws| + 1..] == surname + t;
    NonSlashRunOver(surname, t);
    var k := |ws| + 1 + |surname|;
    assert s[k] == '/';
  }

  lemma NoMarkerInGiven(given: string, m: string)
    requires '/' !in given && !AllSpaces(given)
    requires m != [] && m[0] == '/'
    ensures StripMarkers(given + m) == [given[0]] + StripMarkers(given[1..] + m)
  {
    var s := given + m;
    var ws := SpaceRun(s);
    NotAllSpacesRun(given, m);
    assert s[|ws|] == given[|ws|];
    assert given[|ws|] in given;
    assert MarkerAt(s).None?;
    assert s[1..] == given[1..] + m;
  }

  lemma {:induction false} SpaceRunOver(ws: string, tail: string)
    requires AllSpaces(ws)
    requires tail == [] || !IsSpace(tail[0])
    ensures SpaceRun(ws + tail) == ws
    decreases |ws|
  {
    if ws == [] {
      assert ws + tail == tail;
    } else {
      assert (ws + tail)[1..] == ws[1..] + tail;
      SpaceRunOver(ws[1..], tail);
    }
  }

  lemma {:induction false} NonSlashRunOver(body: string, tail: string)
    requires '/' !in body
    requires tail == [] || tail[0] == '/'
    ensures NonSlashRun(body + tail) == body
    decreases |body|
  {
    if body == [] {
      assert body + tail == tail;
    } else {
      assert body[0] in body;
      assert (body + tail)[1..] == body[1..] + tail;
      assert forall c :: c in body[1..] ==> c in body;
      NonSlashRunOver(body[1..], tail);
    }
  }

  lemma {:induction false} NotAllSpacesRun(given: string, tail: string)
    requires !AllSpaces(given)
    ensures |SpaceRun(given + tail)| < |given|
    decreases |given|
  {
    if IsSpace(given[0]) {
      assert (given + tail)[1..] == given[1..] + tail;
      NotAllSpacesRun(given[1..], tail);
    }
  }

  lemma {:induction false} DropAllSpaces(s: string)
    requires AllSpaces(s)
    ensures DropTrailingSpaces(s) == []
    decreases |s|
  {
    if s != [] {
      DropAllSpaces(s[..|s| - 1]);
    }
  }

  lemma {:induction false} DropTrailingSpacesCons(s: string)
    requires !AllSpaces(s)
    ensures DropTrailingSpaces(s) == [s[0]] + DropTrailingSpaces(s[1..])
    decreases |s|
  {
    if IsSpace(s[|s| - 1]) {
      var k :| 0 <= k < |s| && !IsSpace(s[k]);
      assert k < |s| - 1;
      assert s[..|s| - 1][k] == s[k];
      DropTrailingSpacesCons(s[..|s| - 1]);
      assert s[..|s| - 1][1..] == s[1..][..|s[1..]| - 1];
    } else {
      assert s == [s[0]] + s[1..];
    }
  }

  /** A stored name "Given /Surname/ rest" is displayed as the given name
      without its trailing white space, a space, the surname and the rest
      (itself with its markers replaced). A name that starts with its marker
      is displayed with a leading space, because trimming happens first. */
  lemma FormatNameSurname(p: Person, given: string, surname: string, rest: string)
    requires p.name == Some(given + Marked(surname, rest))
    requires '/' !in given && '/' !in surname && surname != []
    requires given == [] || !IsTrimChar(given[0])
    requires rest == [] || !IsTrimChar(rest[|rest| - 1])
    ensures FormatName(p) == DropTrailingSpaces(given) + (" " + surname + StripMarkers(rest))
    ensures given == [] ==> FormatName(p)[0] == ' '
  {
    var name := given + Marked(surname, rest);
    assert name[0] == if given == [] then '/' else given[0];
    assert name[|name| - 1] == if rest == [] then '/' else rest[|rest| - 1];
    TrimOfTrimmed(name);
    StripMarkersSurname(given, surname, rest);
  }

  /** A name without surname markers is only trimmed. */
  lemma FormatNamePlain(p: Person)
    requires '/' !in p.name.GetOr("")
    ensures FormatName(p) == Trim(p.name.GetOr(""))
  {
    var name := p.name.GetOr("");
    var t := Trim(name);
    var i := TrimSlice(name);
    assert '/' !in t by {
      forall k | 0 <= k < |t| ensures t[k] != '/' {
        assert t[k] == name[i + k];
      }
    }
    StripMarkersNoSlash(t);
  }

  // ---------------------------------------------------------------------
  // Event dates
  // ---------------------------------------------------------------------

  /** The trimmed DATE of an event, or "" when the event or its date is missing. */
  function EventDate(e: Option<Event>): (r: string)
    ensures Trimmed(r)
    ensures e.None? || e.value.date.None? ==> r == ""
  {
    if e.Some? && e.value.date.Some? then Trim(e.value.date.value) else ""
  }

  // ---------------------------------------------------------------------
  // The families of a person
  // ---------------------------------------------------------------------

  /** The position of the first occurrence of `x` in `s`. */
  function IndexOf(x: Id, s: seq<Id>): (k: nat)
    requires x in s
    ensures k < |s| && s[k] == x && x !in s[..k]
    decreases |s|
  {
    if s[0] == x then 0
    else
      var k := IndexOf(x, s[1..]);
      assert s[..k + 1] == [s[0]] + s[1..][..k];
      k + 1
  }

  /** Appending to a sequence leaves the first occurrence of what it already holds in place. */
  lemma IndexOfAppend(x: Id, s: seq<Id>, y: Id)
    requires x in s
    ensures IndexOf(x, s + [y]) == IndexOf(x, s)
  {
    var j, k := IndexOf(x, s), IndexOf(x, s + [y]);
    assert (s + [y])[..j] == s[..j];
    assert (s + [y])[j] == x;
    assert k < |s| ==> s[k] == x;
  }

  lemma IndexOfAppendAll(xs: seq<Id>, s: seq<Id>, y: Id)
    requires forall x :: x in xs ==> x in s
    ensures forall x :: x in xs ==> IndexOf(x, s + [y]) == IndexOf(x, s) < |s|
  {
    forall x | x in xs ensures IndexOf(x, s + [y]) == IndexOf(x, s) < |s| {
      IndexOfAppend(x, s, y);
    }
  }

  /** The ids among `refs` that name an existing family, without repeats
      (the source collects them as keys of an array). */
  function FamilyIds(db: Db, refs: seq<Id>): (ids: seq<Id>)
    ensures forall i, j :: 0 <= i < j < |ids| ==> ids[i] != ids[j]
    ensures forall x :: x in ids <==> x in refs && x in db.families
    decreases |refs|
  {
    if refs == [] then []
    else
      var front := refs[..|refs| - 1];
      var prev := FamilyIds(db, front);
      var r := refs[|refs| - 1];
      assert refs == front + [r];
      if r in db.families && r !in prev then prev + [r] else prev
  }

  /** `ids` lists ids of `refs` in the order of their first occurrence there. */
  ghost predicate FirstSeenOrder(ids: seq<Id>, refs: seq<Id>) {
    forall i, j :: 0 <= i < j < |ids| && ids[i] in refs && ids[j] in refs ==>
      IndexOf(ids[i], refs) < IndexOf(ids[j], refs)
  }

  /** The ids come out in the order of their first occurrence among the references. */
  lemma {:induction false} FamilyIdsOrder(db: Db, refs: seq<Id>)
    ensures FirstSeenOrder(FamilyIds(db, refs), refs)
    decreases |refs|
  {
    if refs != [] {
      var front := refs[..|refs| - 1];
      var r := refs[|refs| - 1];
      FamilyIdsOrder(db, front);
      var prev := FamilyIds(db, front);
      var added := r in db.families && r !in prev;
      assert refs == front + [r];
      assert FamilyIds(db, refs) == if added then prev + [r] else prev;
      OrderSnoc(prev, front, r, added);
    }
  }

  /** Appending a reference keeps the order of the ids seen before it, and an
      id seen for the first time comes after all of them. */
  lemma OrderSnoc(prev: seq<Id>, front: seq<Id>, r: Id, added: bool)
    requires FirstSeenOrder(prev, front)
    requires forall x :: x in prev ==> x in front
    requires added ==> r !in front
    ensures FirstSeenOrder(if added then prev + [r] else prev, front + [r])
  {
    var refs := front + [r];
    var ids := if added then prev + [r] else prev;
    IndexOfAppendAll(prev, front, r);
    if added {
      assert IndexOf(r, refs) == |front|;
    }
    forall i, j | 0 <= i < j < |ids| && ids[i] in refs && ids[j] in refs
      ensures IndexOf(ids[i], refs) < IndexOf(ids[j], refs)
    {
      assert ids[i] == prev[i] && prev[i] in prev;
      if j < |prev| {
        assert ids[j] == prev[j] && prev[j] in prev;
      }
    }
  }

  /** The families the generator walks for a person: those it is a spouse in
      (FAMS), then those it is a child in (FAMC), each existing family once. */
  function FamiliesFor(db: Db, id: Id): (fams: seq<Family>)
    ensures forall f :: f in fams ==> f in db.families.Values
    ensures id !in db.people ==> fams == []
  {
    if id !in db.people then []
    else
      var p := db.people[id];
      var ids := FamilyIds(db, p.fams + p.famc);
      seq(|ids|, i requires 0 <= i < |ids| => db.families[ids[i]])
  }

  /** A family is walked for a known person exactly when one of its FAMS or
      FAMC references names it in the store. */
  lemma FamiliesForMembers(db: Db, id: Id, f: Family)
    requires id in db.people
    ensures f in FamiliesFor(db, id) <==>
      exists x :: x in db.people[id].fams + db.people[id].famc && x in db.families && db.families[x] == f
  {
    var p := db.people[id];
    var refs := p.fams + p.famc;
    var ids := FamilyIds(db, refs);
    var fams := FamiliesFor(db, id);
    assert |fams| == |ids| && forall i :: 0 <= i < |ids| ==> fams[i] == db.families[ids[i]];
    if f in fams {
      var i :| 0 <= i < |fams| && fams[i] == f;
      assert ids[i] in refs && ids[i] in db.families;
    }
    if exists x :: x in refs && x in db.families && db.families[x] == f {
      var x :| x in refs && x in db.families && db.families[x] == f;
      var i :| 0 <= i < |ids| && ids[i] == x;
      assert fams[i] == f;
    }
  }

  /** The ids a family record refers to. */
  ghost function Members(f: Family): set<Id> {
    (if f.husb.Some? then {f.husb.value} else {})
      + (if f.wife.Some? then {f.wife.value} else {})
      + (set c | c in f.children)
  }

  /** Every person id any family of the batch refers to: a finite set that
      contains every id the traversal can push after the start id. */
  ghost function Mentioned(db: Db): set<Id> {
    set f, x | f in db.families.Values && x in Members(f) :: x
  }
}
