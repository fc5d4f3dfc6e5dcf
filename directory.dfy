/**
  The query half of the patient directory in assets/patients.js: the record
  type, the three-part filter predicate of `filterPatients`, the comparator it
  hands to `Array.prototype.sort`, and the stable sort itself.
*/
module PatientDirectory {
  import opened Wrappers
  import opened JsText

  /** One entry of `patientsData`. `lastVisit` is the visit date as a day
      number (what `new Date(...)` parses it to); `balance` is the amount owed. */
  datatype Patient = Patient(
    mrn: string,
    name: string,
    age: nat,
    gender: string,
    phone: string,
    email: Option<string>,
    address: Option<string>,
    status: string,
    lastVisit: int,
    balance: real,
    hasCriticalAlert: bool,
    alert: Option<string>)

  /** The normalised values of the four filter controls. */
  datatype Query = Query(search: string, status: string, age: string, sort: string)

  /** The raw values of the search box and the three selects; `None` when the element is missing. */
  datatype Controls = Controls(
    searchInput: Option<string>,
    statusFilter: Option<string>,
    ageFilter: Option<string>,
    sortBy: Option<string>)

  /** The query `filterPatients` reads from the controls: the search text
      lower-cased and trimmed, and "all", "all", "name" for missing selects. */
  function QueryOf(c: Controls): (q: Query)
    ensures c.searchInput.None? ==> q.search == []
    ensures q.search != [] ==> !IsSpace(q.search[0]) && !IsSpace(q.search[|q.search| - 1])
    ensures forall i :: 0 <= i < |q.search| ==> !('A' <= q.search[i] <= 'Z')
    ensures q.status == (if c.statusFilter.Some? then c.statusFilter.value else "all")
    ensures q.age == (if c.ageFilter.Some? then c.ageFilter.value else "all")
    ensures q.sort == (if c.sortBy.Some? then c.sortBy.value else "name")
  {
    var term := if c.searchInput.Some? then Trim(ToLower(c.searchInput.value)) else "";
    TrimKeepsLowerCase(ToLower(c.searchInput.GetOr("")));
    Query(term, c.statusFilter.GetOr("all"), c.ageFilter.GetOr("all"), c.sortBy.GetOr("name"))
  }

  /** The search term is the search box's value lower-cased and then trimmed. */
  lemma QueryOfSearch(c: Controls)
    requires c.searchInput.Some?
    ensures QueryOf(c).search == Trim(ToLower(c.searchInput.value))
  {
  }

  /** The search part of the predicate: an empty term matches every record;
      otherwise the term must occur in the lower-cased name, the lower-cased
      MRN, the phone number as written, or the lower-cased e-mail address when
      there is one. */
  predicate MatchesSearch(p: Patient, term: string) {
    || term == []
    || Contains(ToLower(p.name), term)
    || Contains(ToLower(p.mrn), term)
    || Contains(p.phone, term)
    || (p.email.Some? && p.email.value != [] && Contains(ToLower(p.email.value), term))
  }

  /** The status part of the predicate. */
  predicate MatchesStatus(p: Patient, status: string) {
    status == "all" || p.status == status
  }

  /** The age band a patient of the given age belongs to. */
  function AgeBand(age: nat): (band: string)
    ensures band in {"pediatric", "adult", "senior"}
  {
    if age < 18 then "pediatric" else if age < 65 then "adult" else "senior"
  }

  /** The age part of the predicate, written as `filterPatients` writes it.
      The three named bands partition the ages, half-open at 18 and 65, and any
      other selector value lets every record through. */
  predicate MatchesAge(p: Patient, band: string)
    ensures MatchesAge(p, band) <==> (band in {"pediatric", "adult", "senior"} ==> AgeBand(p.age) == band)
  {
    if band == "pediatric" then p.age < 18
    else if band == "adult" then p.age >= 18 && p.age < 65
    else if band == "senior" then p.age >= 65
    else true
  }

  /** The whole filter predicate: search AND status AND age. */
  predicate Matches(p: Patient, q: Query) {
    MatchesSearch(p, q.search) && MatchesStatus(p, q.status) && MatchesAge(p, q.age)
  }

  /** `r` is `s` with some of its elements left out, the others kept in their order. */
  predicate SubsequenceOf<T(==)>(r: seq<T>, s: seq<T>)
    decreases |s|
  {
    if r == [] then true
    else if s == [] then false
    else (r[0] == s[0] && SubsequenceOf(r[1..], s[1..])) || SubsequenceOf(r, s[1..])
  }

  /** `patientsData.filter(...)`: exactly the matching records, each as often as
      in the directory, in directory order. */
  function Filter(dir: seq<Patient>, q: Query): (r: seq<Patient>)
    ensures |r| <= |dir|
    ensures forall p :: p in r <==> p in dir && Matches(p, q)
    ensures forall p :: multiset(r)[p] == if Matches(p, q) then multiset(dir)[p] else 0
  {
    if dir == [] then []
    else
      var rest := Filter(dir[1..], q);
      var head := if Matches(dir[0], q) then [dir[0]] else [];
      assert dir == [dir[0]] + dir[1..];
      assert multiset(dir) == multiset{dir[0]} + multiset(dir[1..]);
      assert multiset(head + rest) == multiset(head) + multiset(rest);
      head + rest
  }

  /** The filter keeps the matching records in directory order. */
  lemma {:induction false} FilterInOrder(dir: seq<Patient>, q: Query)
    ensures SubsequenceOf(Filter(dir, q), dir)
  {
    if dir != [] {
      FilterInOrder(dir[1..], q);
      var rest := Filter(dir[1..], q);
      if Matches(dir[0], q) {
        assert Filter(dir, q) == [dir[0]] + rest;
        assert ([dir[0]] + rest)[1..] == rest;
      } else {
        assert Filter(dir, q) == rest;
      }
    }
  }

  /** The filter keeps a sub-multiset of the directory. */
  lemma FilterIsSubMultiset(dir: seq<Patient>, q: Query)
    ensures multiset(Filter(dir, q)) <= multiset(dir)
  {
    var r := Filter(dir, q);
    forall p ensures multiset(r)[p] <= multiset(dir)[p] {
    }
  }

  /** With an empty search term and "all" for status and age, the filter gives
      back the whole directory in its own order. */
  lemma {:induction false} FilterWithoutCriteria(dir: seq<Patient>, sort: string)
    ensures Filter(dir, Query([], "all", "all", sort)) == dir
  {
    if dir != [] {
      FilterWithoutCriteria(dir[1..], sort);
      assert Matches(dir[0], Query([], "all", "all", sort));
    }
  }

  // ---------------------------------------------------------------------------
  // Ordering

  /** The model of `a.localeCompare(b) <= 0`: lexicographic order on code points. */
  predicate StrLe(a: string, b: string) {
    if a == [] then true
    else if b == [] then false
    else if a[0] != b[0] then a[0] < b[0]
    else StrLe(a[1..], b[1..])
  }

  lemma {:induction false} StrLeReflexive(a: string)
    ensures StrLe(a, a)
  {
    if a != [] { StrLeReflexive(a[1..]); }
  }

  lemma {:induction false} StrLeTotal(a: string, b: string)
    ensures StrLe(a, b) || StrLe(b, a)
  {
    if a != [] && b != [] && a[0] == b[0] { StrLeTotal(a[1..], b[1..]); }
  }

  lemma {:induction false} StrLeTransitive(a: string, b: string, c: string)
    requires StrLe(a, b) && StrLe(b, c)
    ensures StrLe(a, c)
  {
    if a != [] && b != [] && c != [] && a[0] == b[0] == c[0] {
      StrLeTransitive(a[1..], b[1..], c[1..]);
    }
  }

  lemma {:induction false} StrLeAntisymmetric(a: string, b: string)
    requires StrLe(a, b) && StrLe(b, a)
    ensures a == b
  {
    if a != [] && b != [] {
      StrLeAntisymmetric(a[1..], b[1..]);
      assert a == [a[0]] + a[1..] && b == [b[0]] + b[1..];
    }
  }

  /** The comparator handed to `filtered.sort`, as "compare(a, b) <= 0": by name
      for "name", by name reversed for "name-desc", latest visit first for
      "recent", by MRN for "mrn"; for any other key it returns 0, so every pair
      may stay as it is. */
  predicate Precedes(key: string, a: Patient, b: Patient) {
    if key == "name" then StrLe(a.name, b.name)
    else if key == "name-desc" then StrLe(b.name, a.name)
    else if key == "recent" then b.lastVisit - a.lastVisit <= 0
    else if key == "mrn" then StrLe(a.mrn, b.mrn)
    else true
  }

  /** The comparator is total for every key ... */
  lemma PrecedesTotal(key: string, a: Patient, b: Patient)
    ensures Precedes(key, a, b) || Precedes(key, b, a)
  {
    StrLeTotal(a.name, b.name);
    StrLeTotal(a.mrn, b.mrn);
  }

  /** ... reflexive ... */
  lemma PrecedesReflexive(key: string, a: Patient)
    ensures Precedes(key, a, a)
  {
    StrLeReflexive(a.name);
    StrLeReflexive(a.mrn);
  }

  /** ... and transitive, so that a sort by it is well defined. */
  lemma PrecedesTransitive(key: string, a: Patient, b: Patient, c: Patient)
    requires Precedes(key, a, b) && Precedes(key, b, c)
    ensures Precedes(key, a, c)
  {
    if key == "name" {
      StrLeTransitive(a.name, b.name, c.name);
    } else if key == "name-desc" {
      StrLeTransitive(c.name, b.name, a.name);
    } else if key == "mrn" {
      StrLeTransitive(a.mrn, b.mrn, c.mrn);
    }
  }

  /** `s` is in the order the comparator asks for. */
  ghost predicate Sorted(key: string, s: seq<Patient>) {
    forall i, j :: 0 <= i < j < |s| ==> Precedes(key, s[i], s[j])
  }

  /** Inserts `x` in front of the first element it may precede; placing it
      before its equals keeps the sort stable. */
  function Insert(key: string, x: Patient, r: seq<Patient>): (t: seq<Patient>)
    ensures |t| == |r| + 1
    ensures multiset(t) == multiset(r) + multiset{x}
  {
    if r == [] then [x]
    else if Precedes(key, x, r[0]) then [x] + r
    else
      assert r == [r[0]] + r[1..];
      [r[0]] + Insert(key, x, r[1..])
  }

  /** The stable sort `Array.prototype.sort` performs with the comparator for `key`. */
  function SortPatients(s: seq<Patient>, key: string): (r: seq<Patient>)
    ensures |r| == |s|
    ensures multiset(r) == multiset(s)
  {
    if s == [] then []
    else
      assert s == [s[0]] + s[1..];
      Insert(key, s[0], SortPatients(s[1..], key))
  }

  lemma {:induction false} InsertSorted(key: string, x: Patient, r: seq<Patient>)
    requires Sorted(key, r)
    ensures Sorted(key, Insert(key, x, r))
  {
    var t := Insert(key, x, r);
    if r == [] {
    } else if Precedes(key, x, r[0]) {
      forall j | 1 <= j < |t| ensures Precedes(key, x, t[j]) {
        if j > 1 { PrecedesTransitive(key, x, r[0], r[j - 1]); }
      }
    } else {
      PrecedesTotal(key, x, r[0]);
      var tail := Insert(key, x, r[1..]);
      InsertSorted(key, x, r[1..]);
      forall k | 0 <= k < |tail| ensures Precedes(key, r[0], tail[k]) {
        InsertMember(key, x, r[1..], tail[k]);
        if tail[k] != x {
          SortedHeadPrecedes(key, r, tail[k]);
        }
      }
      assert t == [r[0]] + tail;
    }
  }

  /** An inserted list holds the new record and the old ones only. */
  lemma InsertMember(key: string, x: Patient, r: seq<Patient>, y: Patient)
    requires y in Insert(key, x, r)
    ensures y == x || y in r
  {
    assert y in multiset(Insert(key, x, r));
  }

  /** Sorting puts the records in comparator order. */
  lemma {:induction false} SortPatientsSorted(s: seq<Patient>, key: string)
    ensures Sorted(key, SortPatients(s, key))
  {
    if s != [] {
      SortPatientsSorted(s[1..], key);
      InsertSorted(key, s[0], SortPatients(s[1..], key));
    }
  }

  /** The comparator returns 0 both ways: neither record has to move past the other. */
  predicate Tied(key: string, a: Patient, b: Patient) {
    Precedes(key, a, b) && Precedes(key, b, a)
  }

  /** The records of `s` tied with `y`, in their order in `s`. */
  function TiedWith(key: string, y: Patient, s: seq<Patient>): (r: seq<Patient>)
    ensures |r| <= |s|
    ensures forall p :: p in r <==> p in s && Tied(key, p, y)
  {
    if s == [] then []
    else
      assert s == [s[0]] + s[1..];
      (if Tied(key, s[0], y) then [s[0]] else []) + TiedWith(key, y, s[1..])
  }

  /** One record in front of `s`. */
  lemma TiedWithCons(key: string, y: Patient, a: Patient, s: seq<Patient>)
    ensures TiedWith(key, y, [a] + s) == (if Tied(key, a, y) then [a] else []) + TiedWith(key, y, s)
  {
    assert ([a] + s)[0] == a && ([a] + s)[1..] == s;
  }

  /** Inserting `x` never moves it past a record tied with it: among the records
      tied with `y`, `x` comes first when it is one of them, and the others keep their order. */
  lemma {:induction false} InsertTiedWith(key: string, x: Patient, r: seq<Patient>, y: Patient)
    ensures TiedWith(key, y, Insert(key, x, r)) == (if Tied(key, x, y) then [x] else []) + TiedWith(key, y, r)
  {
    if r == [] {
      TiedWithCons(key, y, x, []);
    } else if Precedes(key, x, r[0]) {
      TiedWithCons(key, y, x, r);
    } else {
      InsertTiedWith(key, x, r[1..], y);
      TiedWithCons(key, y, r[0], Insert(key, x, r[1..]));
      NotBothTied(key, x, r[0], y);
      SwapFront(if Tied(key, r[0], y) then [r[0]] else [], if Tied(key, x, y) then [x] else [],
        TiedWith(key, y, r[1..]));
    }
  }

  /** A record that may not precede `z` is not tied with anything `z` is tied with. */
  lemma NotBothTied(key: string, x: Patient, z: Patient, y: Patient)
    requires !Precedes(key, x, z)
    ensures !(Tied(key, x, y) && Tied(key, z, y))
  {
    if Tied(key, x, y) && Tied(key, z, y) {
      PrecedesTransitive(key, x, y, z);
    }
  }

  /** Two pieces of which one is empty may be swapped. */
  lemma SwapFront<T>(a: seq<T>, b: seq<T>, z: seq<T>)
    requires a == [] || b == []
    ensures a + (b + z) == b + (a + z)
  {
    if a == [] {
      assert a + (b + z) == b + z == b + (a + z);
    } else {
      assert a + (b + z) == a + z == b + (a + z);
    }
  }

  /** The sort is stable: the records tied with any `y` come out in the order they went in. */
  lemma {:induction false} SortPatientsStable(s: seq<Patient>, key: string, y: Patient)
    ensures TiedWith(key, y, SortPatients(s, key)) == TiedWith(key, y, s)
  {
    if s != [] {
      SortPatientsStable(s[1..], key, y);
      InsertTiedWith(key, s[0], SortPatients(s[1..], key), y);
    }
  }

  /** For a key the comparator does not know, the sort leaves the filter order unchanged. */
  lemma {:induction false} SortUnknownKeyKeepsOrder(s: seq<Patient>, key: string)
    requires key !in {"name", "name-desc", "recent", "mrn"}
    ensures SortPatients(s, key) == s
  {
    if s != [] {
      SortUnknownKeyKeepsOrder(s[1..], key);
      assert s == [s[0]] + s[1..];
    }
  }

  /** In a sorted sequence the first element precedes every element. */
  lemma SortedHeadPrecedes(key: string, a: seq<Patient>, x: Patient)
    requires Sorted(key, a) && x in a
    ensures Precedes(key, a[0], x)
  {
    var i :| 0 <= i < |a| && a[i] == x;
    if i == 0 { PrecedesReflexive(key, x); }
  }

  /** The tail of a sorted list is sorted. */
  lemma SortedTail(key: string, a: seq<Patient>)
    requires Sorted(key, a) && a != []
    ensures Sorted(key, a[1..])
  {
    forall i, j | 0 <= i < j < |a| - 1 ensures Precedes(key, a[1..][i], a[1..][j]) {
      assert a[1..][i] == a[i + 1] && a[1..][j] == a[j + 1];
    }
  }

  /** Removing equal heads of two permutations leaves permutations. */
  lemma PermutationTails(a: seq<Patient>, b: seq<Patient>)
    requires a != [] && b != [] && a[0] == b[0] && multiset(a) == multiset(b)
    ensures multiset(a[1..]) == multiset(b[1..])
  {
    assert a == [a[0]] + a[1..] && b == [b[0]] + b[1..];
    assert multiset(a) == multiset{a[0]} + multiset(a[1..]);
    assert multiset(b) == multiset{b[0]} + multiset(b[1..]);
    assert multiset(a[1..]) == multiset(a) - multiset{a[0]};
    assert multiset(b[1..]) == multiset(b) - multiset{b[0]};
  }

  /** Two sorted permutations of each other are equal when the comparator
      ties no two different elements. */
  lemma {:induction false} SortedPermutationsEqual(key: string, a: seq<Patient>, b: seq<Patient>)
    requires Sorted(key, a) && Sorted(key, b)
    requires multiset(a) == multiset(b)
    requires forall x, y :: x in a && y in a && Precedes(key, x, y) && Precedes(key, y, x) ==> x == y
    ensures a == b
  {
    assert |a| == |multiset(a)| == |multiset(b)| == |b|;
    if a != [] {
      assert a[0] in multiset(b) && b[0] in multiset(a);
      SortedHeadPrecedes(key, a, b[0]);
      SortedHeadPrecedes(key, b, a[0]);
      assert a[0] == b[0];
      PermutationTails(a, b);
      SortedTail(key, a);
      SortedTail(key, b);
      assert forall x :: x in a[1..] ==> x in a;
      SortedPermutationsEqual(key, a[1..], b[1..]);
      assert a == [a[0]] + a[1..] && b == [b[0]] + b[1..];
    }
  }

  function Reverse<T>(s: seq<T>): (r: seq<T>)
    ensures |r| == |s|
    ensures forall i :: 0 <= i < |s| ==> r[i] == s[|s| - 1 - i]
    ensures multiset(r) == multiset(s)
  {
    if s == [] then []
    else
      assert s == [s[0]] + s[1..];
      Reverse(s[1..]) + [s[0]]
  }

  /** No two records of `s` share a name. */
  ghost predicate DistinctNames(s: seq<Patient>) {
    forall i, j :: 0 <= i < j < |s| ==> s[i].name != s[j].name
  }

  /** When the names are distinct, "name-desc" gives exactly the reverse of "name". */
  lemma NameDescReversesName(s: seq<Patient>)
    requires DistinctNames(s)
    ensures SortPatients(s, "name-desc") == Reverse(SortPatients(s, "name"))
  {
    var asc := SortPatients(s, "name");
    var desc := SortPatients(s, "name-desc");
    var rev := Reverse(asc);
    SortPatientsSorted(s, "name");
    SortPatientsSorted(s, "name-desc");
    forall i, j | 0 <= i < j < |rev| ensures Precedes("name-desc", rev[i], rev[j]) {
      assert Precedes("name", asc[|asc| - 1 - j], asc[|asc| - 1 - i]);
    }
    forall x, y | x in desc && y in desc && Precedes("name-desc", x, y) && Precedes("name-desc", y, x)
      ensures x == y
    {
      StrLeAntisymmetric(x.name, y.name);
      assert x in multiset(s) && y in multiset(s);
      var i :| 0 <= i < |s| && s[i] == x;
      var j :| 0 <= j < |s| && s[j] == y;
      assert i == j;
    }
    SortedPermutationsEqual("name-desc", desc, rev);
  }

  /** `filterPatients` without its DOM side: filter, then sort. */
  function ApplyQuery(dir: seq<Patient>, q: Query): seq<Patient> {
    SortPatients(Filter(dir, q), q.sort)
  }

  /** What `filterPatients` promises of its result: it holds exactly the
      matching records, each as often as the directory does, and is in the
      order of the selected key. */
  lemma ApplyQueryResult(dir: seq<Patient>, q: Query)
    ensures forall p :: p in ApplyQuery(dir, q) <==> p in dir && Matches(p, q)
    ensures multiset(ApplyQuery(dir, q)) <= multiset(dir)
    ensures forall p :: multiset(ApplyQuery(dir, q))[p] == if Matches(p, q) then multiset(dir)[p] else 0
    ensures Sorted(q.sort, ApplyQuery(dir, q))
  {
    var f := Filter(dir, q);
    FilterIsSubMultiset(dir, q);
    SortPatientsSorted(f, q.sort);
    var r := SortPatients(f, q.sort);
    assert forall p :: p in r <==> p in multiset(r);
  }
}
