/** Reading a logical field out of a backend record whose key spelling
    varies (`getMemberProperty` and the `||` chains that do the same job),
    and the search-side rules built on it: when a keystroke leads to a
    search request, and which returned members become result rows. */
module Records {
  import opened JsText

  /** A backend record: key to string value. An absent key is JavaScript's
      `undefined`. */
  type Record = map<string, string>

  /** `record[key]` is present and not the empty string. */
  predicate Filled(m: Record, key: string) {
    key in m && m[key] != ""
  }

  /** Index `i` holds the first filled candidate key. */
  predicate FirstFilledAt(m: Record, keys: seq<string>, i: int) {
    0 <= i < |keys| && Filled(m, keys[i]) && forall j :: 0 <= j < i ==> !Filled(m, keys[j])
  }

  /** `getMemberProperty`: the value of the first candidate key that is
      present and non-empty, or the empty string when there is none. */
  function GetMemberProperty(m: Record, keys: seq<string>): (v: string)
    ensures v == "" <==> forall i :: 0 <= i < |keys| ==> !Filled(m, keys[i])
    ensures v != "" ==> exists i :: FirstFilledAt(m, keys, i) && m[keys[i]] == v
    decreases |keys|
  {
    if |keys| == 0 then ""
    else if Filled(m, keys[0]) then m[keys[0]]
    else GetMemberProperty(m, keys[1..])
  }

  /** When some key of `front` is filled, the keys after `front` never
      affect the result. */
  lemma {:induction false} LaterKeysIgnored(m: Record, front: seq<string>, back: seq<string>)
    requires exists i :: 0 <= i < |front| && Filled(m, front[i])
    ensures GetMemberProperty(m, front + back) == GetMemberProperty(m, front)
    decreases |front|
  {
    if !Filled(m, front[0]) {
      assert (front + back)[1..] == front[1..] + back;
      var i :| 0 <= i < |front| && Filled(m, front[i]);
      assert front[1..][i - 1] == front[i];
      LaterKeysIgnored(m, front[1..], back);
    }
  }

  /** Keys none of which is filled can be dropped from the front. */
  lemma {:induction false} UnfilledKeysSkipped(m: Record, front: seq<string>, back: seq<string>)
    requires forall i :: 0 <= i < |front| ==> !Filled(m, front[i])
    ensures GetMemberProperty(m, front + back) == GetMemberProperty(m, back)
    decreases |front|
  {
    if |front| > 0 {
      assert (front + back)[0] == front[0];
      assert (front + back)[1..] == front[1..] + back;
      assert forall i :: 0 <= i < |front| - 1 ==> front[1..][i] == front[i + 1];
      assert GetMemberProperty(m, front + back) == GetMemberProperty(m, front[1..] + back);
      UnfilledKeysSkipped(m, front[1..], back);
    } else {
      assert front + back == back;
    }
  }

  // ---------------------------------------------------------------------
  // The `a || b || ... || ''` chains

  /** A JavaScript value read from a record: `undefined` or a string. */
  datatype JsValue = Undefined | Str(s: string)

  predicate Truthy(x: JsValue) {
    x.Str? && x.s != ""
  }

  /** `record[key]`. */
  function Get(m: Record, key: string): JsValue {
    if key in m then Str(m[key]) else Undefined
  }

  /** JavaScript `x || y`. */
  function JsOr(x: JsValue, y: JsValue): JsValue {
    if Truthy(x) then x else y
  }

  /** `v0 || v1 || ... || vn`, grouped to the left as JavaScript parses it. */
  function OrChain(vs: seq<JsValue>): JsValue
    requires |vs| > 0
    decreases |vs|
  {
    if |vs| == 1 then vs[0] else JsOr(OrChain(vs[..|vs| - 1]), vs[|vs| - 1])
  }

  /** The operands of `record[k0] || ... || record[kn] || ''`. */
  function ChainOperands(m: Record, keys: seq<string>): (vs: seq<JsValue>)
    ensures |vs| == |keys| + 1 && vs[|keys|] == Str("")
    ensures forall i :: 0 <= i < |keys| ==> vs[i] == Get(m, keys[i])
  {
    seq(|keys|, i requires 0 <= i < |keys| => Get(m, keys[i])) + [Str("")]
  }

  /** The value of an `||` chain ending in `''`. */
  function OrLookup(m: Record, keys: seq<string>): JsValue {
    OrChain(ChainOperands(m, keys))
  }

  /** A left-grouped `||` chain yields its first truthy operand, or its
      last operand when none is truthy. */
  lemma {:induction false} OrChainFirstTruthy(vs: seq<JsValue>)
    requires |vs| > 0
    ensures (forall i :: 0 <= i < |vs| ==> !Truthy(vs[i])) ==> OrChain(vs) == vs[|vs| - 1]
    ensures (exists i :: 0 <= i < |vs| && Truthy(vs[i])) ==>
      exists i :: 0 <= i < |vs| && Truthy(vs[i]) && OrChain(vs) == vs[i]
        && forall j :: 0 <= j < i ==> !Truthy(vs[j])
    decreases |vs|
  {
    if |vs| > 1 {
      var front := vs[..|vs| - 1];
      OrChainFirstTruthy(front);
      if exists i :: 0 <= i < |front| && Truthy(front[i]) {
        var i :| 0 <= i < |front| && Truthy(front[i]) && OrChain(front) == front[i]
          && forall j :: 0 <= j < i ==> !Truthy(front[j]);
        assert vs[i] == front[i];
      } else {
        assert forall j :: 0 <= j < |vs| - 1 ==> vs[j] == front[j];
      }
    }
  }

  /** The `||` chain and `getMemberProperty` agree: the chain yields the
      same string the lookup returns, never `undefined`. */
  lemma OrChainIsLookup(m: Record, keys: seq<string>)
    ensures OrLookup(m, keys) == Str(GetMemberProperty(m, keys))
  {
    var vs := ChainOperands(m, keys);
    OrChainFirstTruthy(vs);
    var v := GetMemberProperty(m, keys);
    if v == "" {
      assert forall i :: 0 <= i < |vs| ==> !Truthy(vs[i]);
    } else {
      var k :| FirstFilledAt(m, keys, k) && m[keys[k]] == v;
      assert Truthy(vs[k]);
      var i :| 0 <= i < |vs| && Truthy(vs[i]) && OrChain(vs) == vs[i]
        && forall j :: 0 <= j < i ==> !Truthy(vs[j]);
      assert i == k;
    }
  }

  /** The example of a record that uses an upper-case header. */
  lemma LookupExamples()
    ensures GetMemberProperty(map["PHONE NUMBER" := "08031234567"], ["Phone Number", "PHONE NUMBER", "phone"]) == "08031234567"
    ensures GetMemberProperty(map["Address" := "Abuja"], ["Phone Number", "PHONE NUMBER", "phone"]) == ""
    ensures GetMemberProperty(map["Phone" := "", "phone" := "0809"], ["Phone", "phone"]) == "0809"
  {
    var m := map["PHONE NUMBER" := "08031234567"];
    var keys := ["Phone Number", "PHONE NUMBER", "phone"];
    assert !Filled(m, keys[0]);
    assert keys[1..][0] == "PHONE NUMBER";
    var m2 := map["Address" := "Abuja"];
    assert forall i :: 0 <= i < |keys| ==> !Filled(m2, keys[i]);
    var m3 := map["Phone" := "", "phone" := "0809"];
    assert !Filled(m3, "Phone");
    assert ["Phone", "phone"][1..] == ["phone"];
  }

  // ---------------------------------------------------------------------
  // Candidate key lists, most specific first, as the script lists them

  const PhoneKeys: seq<string> := ["Phone Number", "Phone", "phone", "PHONE"]
  const GenderKeys: seq<string> := ["Gender", "gender", "GENDER"]
  const EmailKeys: seq<string> := ["Email", "email", "EMAIL", "EMAIL "]
  const DobKeys: seq<string> := ["Date of Birth", "DOB", "dob", "DATE OF BIRTH"]
  const ServiceKeys: seq<string> := ["Service", "service", "SERVICE"]
  const AttendeeNameKeys: seq<string> := ["MemberName", "memberName", "MEMBERNAME", "Name", "name"]

  // ---------------------------------------------------------------------
  // Search

  /** What a change of the search box leads to. */
  datatype SearchStep =
    | ClearResults            // the trimmed query is empty: results cleared, no request
    | Dropped                 // one UTF-16 unit: the debounced search returns silently
    | Request(term: string)   // a `search` call with this `searchTerm`

  /** The input handler and `performSearch` for a query that stays in the
      box past the 300 ms debounce. Both length tests count UTF-16 units. */
  function SearchStepFor(raw: string): (r: SearchStep)
    ensures r.ClearResults? <==> Trim(raw) == ""
    ensures r.Request? <==> Utf16Length(Trim(raw)) >= 2
    ensures r.Dropped? ==> |Trim(raw)| == 1 && Trim(raw)[0] as int <= 0xFFFF
    ensures r.Request? ==> r.term == Trim(raw)
  {
    var q := Trim(raw);
    if |q| == 0 then ClearResults
    else if Utf16Length(q) < 2 then Dropped
    else Request(q)
  }

  /** Surrounding whitespace never changes what a query does, and a search
      term is already trimmed. */
  lemma SearchIgnoresSurroundingSpace(raw: string)
    ensures SearchStepFor(Trim(raw)) == SearchStepFor(raw)
    ensures SearchStepFor(raw).Request? ==> Trim(SearchStepFor(raw).term) == SearchStepFor(raw).term
  {
    TrimIdempotent(raw);
  }

  /** One letter is too short, two letters are searched, blanks clear the
      results, and a single emoji is two UTF-16 units and is searched. */
  lemma SearchStepExamples()
    ensures SearchStepFor("a") == Dropped
    ensures SearchStepFor("an") == Request("an")
    ensures SearchStepFor("   ") == ClearResults
    ensures SearchStepFor("\U{1F600}") == Request("\U{1F600}")
  {
    TrimFixed("a");
    TrimFixed("an");
    TrimFixed("\U{1F600}");
    assert Utf16Length("\U{1F600}") == 2 by {
      assert "\U{1F600}"[..0] == "";
    }
    assert LeadingSpaces("   ") == 3 by {
      assert "   "[1..] == "  " && "  "[1..] == " " && " "[1..] == "";
    }
  }

  /** One selectable search result. */
  datatype MemberRow = MemberRow(name: string, phone: string, gender: string, email: string, dob: string)

  /** The name shown for a returned member: `MemberName` when it is filled,
      otherwise whatever the fallback name extractor returns. */
  function DisplayName(m: Record, extract: Record -> string): string {
    if Filled(m, "MemberName") then m["MemberName"] else extract(m)
  }

  /** A member is listed when its name is not blank. */
  predicate Listed(m: Record, extract: Record -> string) {
    Trim(DisplayName(m, extract)) != ""
  }

  function SearchRowFor(m: Record, extract: Record -> string): MemberRow {
    MemberRow(DisplayName(m, extract), GetMemberProperty(m, PhoneKeys), GetMemberProperty(m, GenderKeys),
              GetMemberProperty(m, EmailKeys), GetMemberProperty(m, DobKeys))
  }

  /** The returned members `displaySearchResults` keeps, in the order
      returned: members without a name are skipped silently. */
  function ListedMembers(members: seq<Record>, extract: Record -> string): seq<Record> {
    Filter(members, m => Listed(m, extract))
  }

  /** The rows `displaySearchResults` renders: one per kept member. */
  function ResultRows(members: seq<Record>, extract: Record -> string): seq<MemberRow> {
    Map(ListedMembers(members, extract), m => SearchRowFor(m, extract))
  }

  lemma SearchRowName(m: Record, extract: Record -> string)
    ensures SearchRowFor(m, extract).name == DisplayName(m, extract)
  {
  }

  /** There are never more rows than returned members, and every row
      carries a non-blank name. */
  lemma ResultRowsNamed(members: seq<Record>, extract: Record -> string)
    ensures |ResultRows(members, extract)| <= |members|
    ensures forall k :: 0 <= k < |ResultRows(members, extract)| ==> Trim(ResultRows(members, extract)[k].name) != ""
  {
    var listed := ListedMembers(members, extract);
    FilterSound(members, m => Listed(m, extract));
    forall k | 0 <= k < |listed|
      ensures Trim(ResultRows(members, extract)[k].name) != ""
    {
      SearchRowName(listed[k], extract);
    }
  }

  /** There are no rows exactly when no returned member has a name. */
  lemma NoRowsIffNoneListed(members: seq<Record>, extract: Record -> string)
    ensures |ResultRows(members, extract)| == 0 <==> forall i :: 0 <= i < |members| ==> !Listed(members[i], extract)
  {
    FilterEmptyIff(members, m => Listed(m, extract));
  }

  /** Rows follow the order of the returned members. */
  lemma ResultRowsAppend(a: seq<Record>, b: seq<Record>, extract: Record -> string)
    ensures ResultRows(a + b, extract) == ResultRows(a, extract) + ResultRows(b, extract)
  {
    FilterAppend(a, b, m => Listed(m, extract));
    MapAppend(ListedMembers(a, extract), ListedMembers(b, extract), m => SearchRowFor(m, extract));
  }

  /** What the results area shows after a successful search. */
  datatype SearchView = OfferNewMember(query: string) | Rows(rows: seq<MemberRow>)

  function SearchViewFor(members: seq<Record>, query: string, extract: Record -> string): (v: SearchView)
    ensures v.OfferNewMember? <==> forall i :: 0 <= i < |members| ==> !Listed(members[i], extract)
    ensures v.OfferNewMember? ==> v.query == query
    ensures v.Rows? ==> |v.rows| > 0 && forall k :: 0 <= k < |v.rows| ==> Trim(v.rows[k].name) != ""
    ensures v.Rows? ==> v.rows == ResultRows(members, extract)
  {
    var rows := ResultRows(members, extract);
    NoRowsIffNoneListed(members, extract);
    ResultRowsNamed(members, extract);
    if |rows| == 0 then OfferNewMember(query) else Rows(rows)
  }

  /** The name offered for a new member is the trimmed query, at least two
      UTF-16 units long. */
  lemma OfferedNameIsSearchTerm(raw: string, members: seq<Record>, extract: Record -> string)
    requires SearchStepFor(raw).Request?
    ensures var v := SearchViewFor(members, SearchStepFor(raw).term, extract);
      v.OfferNewMember? ==> v.query == Trim(raw) && Utf16Length(v.query) >= 2 && Trim(v.query) == v.query
  {
    TrimIdempotent(raw);
  }
}
