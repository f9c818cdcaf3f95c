/**
 * How the import script turns one spreadsheet row into the JSON body it
 * posts to `/clients`. Only the per-row mapping is modelled: reading the
 * workbook and posting to the API are input and output.
 */
module LeadImport {
  import opened PyStrings

  /** One row of the workbook, after `fillna("")`: the five columns read. */
  datatype LeadRow = LeadRow(
    leadName: string,
    contactInformation: string,
    salesManager: string,
    goal: string,
    notes: string)

  /** The `client_data` dictionary posted for a row. */
  datatype ClientData = ClientData(
    name: string,
    island: string,
    contactPerson: string,
    phone: string,
    email: string,
    salesManager: string,
    goal: string,
    notes: string)

  /** The resort-name keys `get_island` tests, in order, with their islands. */
  const IslandRules: seq<(string, string)> := [
    ("Mana", "Yasawa"),
    ("Radisson", "Nadi"),
    ("Club Whyndam", "Denarau"),
    ("Plantation", "Mamanuca"),
    ("Crowne Plaza", "Nadi")]

  /** Rule `k` is the first rule whose key occurs in `resortName`. */
  predicate FirstMatchAt(resortName: string, k: int)
  {
    && 0 <= k < |IslandRules|
    && Contains(resortName, IslandRules[k].0)
    && forall j :: 0 <= j < k ==> !Contains(resortName, IslandRules[j].0)
  }

  /** `get_island`: the island of the first key found in the name, or "". */
  function GetIsland(resortName: string): (island: string)
    ensures island in {"Yasawa", "Nadi", "Denarau", "Mamanuca", ""}
  {
    if Contains(resortName, "Mana") then "Yasawa"
    else if Contains(resortName, "Radisson") then "Nadi"
    else if Contains(resortName, "Club Whyndam") then "Denarau"
    else if Contains(resortName, "Plantation") then "Mamanuca"
    else if Contains(resortName, "Crowne Plaza") then "Nadi"
    else ""
  }

  /** The island is the one paired with the first key that occurs. */
  lemma GetIslandFirstMatch(resortName: string, k: int)
    requires FirstMatchAt(resortName, k)
    ensures GetIsland(resortName) == IslandRules[k].1
  {
    assert IslandRules[0] == ("Mana", "Yasawa");
    assert IslandRules[1] == ("Radisson", "Nadi");
    assert IslandRules[2] == ("Club Whyndam", "Denarau");
    assert IslandRules[3] == ("Plantation", "Mamanuca");
    assert IslandRules[4] == ("Crowne Plaza", "Nadi");
    if k > 0 { assert !Contains(resortName, IslandRules[0].0); }
    if k > 1 { assert !Contains(resortName, IslandRules[1].0); }
    if k > 2 { assert !Contains(resortName, IslandRules[2].0); }
    if k > 3 { assert !Contains(resortName, IslandRules[3].0); }
  }

  /** The island is "" exactly when no key occurs in the name. */
  lemma GetIslandNoMatch(resortName: string)
    ensures GetIsland(resortName) == ""
      <==> forall k :: 0 <= k < |IslandRules| ==> !Contains(resortName, IslandRules[k].0)
  {
    assert IslandRules[0] == ("Mana", "Yasawa");
    assert IslandRules[1] == ("Radisson", "Nadi");
    assert IslandRules[2] == ("Club Whyndam", "Denarau");
    assert IslandRules[3] == ("Plantation", "Mamanuca");
    assert IslandRules[4] == ("Crowne Plaza", "Nadi");
  }

  /** "Mana" is tested first, so a name holding both "Mana" and "Radisson"
      lands on the Yasawa group. */
  lemma ManaWins(resortName: string)
    requires Contains(resortName, "Mana") && Contains(resortName, "Radisson")
    ensures GetIsland(resortName) == "Yasawa"
  {
  }

  /** `get_island` sees the unstripped Lead Name; no key starts or ends with
      whitespace, so stripping the name first would find the same island. */
  lemma IslandIgnoresPadding(resortName: string)
    ensures GetIsland(Strip(resortName)) == GetIsland(resortName)
  {
    ContainsStripped(resortName, "Mana");
    ContainsStripped(resortName, "Radisson");
    ContainsStripped(resortName, "Club Whyndam");
    ContainsStripped(resortName, "Plantation");
    ContainsStripped(resortName, "Crowne Plaza");
  }

  /** `"".join([c for c in s if c.isdigit() and len(c) <= 10])`. */
  function PhoneOf(contact: string): (digits: string)
    ensures |digits| <= |contact|
    ensures forall k :: 0 <= k < |digits| ==> IsDigit(digits[k])
  {
    if contact == [] then
      []
    else
      var c := contact[0];
      (if IsDigit(c) && |[c]| <= 10 then [c] else []) + PhoneOf(contact[1..])
  }

  /** The phone of two pieces is the phone of the first followed by that of
      the second: digits are kept in their order. */
  lemma {:induction false} PhoneAppend(a: string, b: string)
    ensures PhoneOf(a + b) == PhoneOf(a) + PhoneOf(b)
  {
    if a == [] {
      assert a + b == b;
    } else {
      assert (a + b)[0] == a[0];
      assert (a + b)[1..] == a[1..] + b;
      PhoneAppend(a[1..], b);
    }
  }

  /** A string of digits, however long, is kept whole: the length test on a
      single character never removes anything. */
  lemma {:induction false} PhoneKeepsDigits(s: string)
    requires forall k :: 0 <= k < |s| ==> IsDigit(s[k])
    ensures PhoneOf(s) == s
  {
    if s != [] {
      PhoneKeepsDigits(s[1..]);
    }
  }

  /** Without digits there is no phone. */
  lemma {:induction false} PhoneDropsNonDigits(s: string)
    requires forall k :: 0 <= k < |s| ==> !IsDigit(s[k])
    ensures PhoneOf(s) == []
  {
    if s != [] {
      PhoneDropsNonDigits(s[1..]);
    }
  }

  /** The text before the first `-`, stripped; "" without a `-`. */
  function ContactPersonOf(contact: string): (person: string)
    ensures '-' !in contact ==> person == []
    ensures '-' in contact ==> person == Strip(contact[..IndexOf(contact, '-')])
    ensures '-' !in person
  {
    ContainsChar(contact, '-');
    if Contains(contact, "-") then Strip(Split(contact, '-')[0]) else []
  }

  /** The words of `ws` holding `c`, in order. */
  function WordsWith(ws: seq<string>, c: char): (found: seq<string>)
    ensures forall k :: 0 <= k < |found| ==> c in found[k] && found[k] in ws
    ensures forall k :: 0 <= k < |ws| && c in ws[k] ==> ws[k] in found
  {
    if ws == [] then []
    else (if c in ws[0] then [ws[0]] else []) + WordsWith(ws[1..], c)
  }

  /** A single word is kept exactly when it holds `c`. */
  lemma WordsWithOne(w: string, c: char)
    ensures c in w ==> WordsWith([w], c) == [w]
    ensures c !in w ==> WordsWith([w], c) == []
  {
    assert [w][1..] == [];
  }

  /** Filtering two lists run together is filtering each and running the
      results together: the kept words stay in their order. */
  lemma {:induction false} WordsWithAppend(a: seq<string>, b: seq<string>, c: char)
    ensures WordsWith(a + b, c) == WordsWith(a, c) + WordsWith(b, c)
  {
    if a == [] {
      assert a + b == b;
    } else {
      assert (a + b)[0] == a[0];
      assert (a + b)[1..] == a[1..] + b;
      WordsWithAppend(a[1..], b, c);
    }
  }

  /** The words of `ws` holding `c` start with the first such word. */
  lemma {:induction false} WordsWithFirst(ws: seq<string>, c: char, p: nat)
    requires p < |ws| && c in ws[p]
    ensures |WordsWith(ws, c)| > 0
    ensures exists k ::
      (0 <= k < |ws| && WordsWith(ws, c)[0] == ws[k] && forall j :: 0 <= j < k ==> c !in ws[j])
  {
    if c !in ws[0] {
      WordsWithFirst(ws[1..], c, p - 1);
      var k :| 0 <= k < |ws[1..]| && WordsWith(ws[1..], c)[0] == ws[1..][k]
        && forall j :: 0 <= j < k ==> c !in ws[1..][j];
      assert WordsWith(ws, c) == WordsWith(ws[1..], c);
      assert forall j :: 0 <= j < k + 1 ==> c !in ws[j] by {
        forall j | 0 <= j < k + 1 ensures c !in ws[j] {
          if j > 0 {
            assert ws[j] == ws[1..][j - 1];
          }
        }
      }
      assert WordsWith(ws, c)[0] == ws[k + 1];
    } else {
      assert WordsWith(ws, c)[0] == ws[0];
    }
  }

  /** The first whitespace-separated word holding `@`; "" without an `@`.
      Some word holds the `@`, so taking the first one is always defined. */
  function EmailOf(contact: string): (email: string)
    ensures '@' !in contact ==> email == []
    ensures '@' in contact ==> '@' in email && NoSpace(email)
    ensures '@' in contact ==> exists k ::
      (0 <= k < |Words(contact)| && email == Words(contact)[k]
       && forall j :: 0 <= j < k ==> '@' !in Words(contact)[j])
  {
    ContainsChar(contact, '@');
    if Contains(contact, "@") then
      var p := IndexOf(contact, '@');
      WordsCover(contact, p);
      var ws := Words(contact);
      var k :| 0 <= k < |ws| && '@' in ws[k];
      WordsWithFirst(ws, '@', k);
      WordsWith(ws, '@')[0]
    else
      []
  }

  /** The `client_data` of one row. */
  function ClientDataOf(row: LeadRow): (d: ClientData)
    ensures d.name == Strip(row.leadName)
    ensures d.island == GetIsland(row.leadName)
    ensures d.island == GetIsland(d.name)
    ensures d.contactPerson == ContactPersonOf(row.contactInformation)
    ensures d.phone == PhoneOf(row.contactInformation)
    ensures d.email == EmailOf(row.contactInformation)
    ensures d.salesManager == row.salesManager && d.goal == row.goal && d.notes == row.notes
  {
    IslandIgnoresPadding(row.leadName);
    ClientData(
      Strip(row.leadName),
      GetIsland(row.leadName),
      ContactPersonOf(row.contactInformation),
      PhoneOf(row.contactInformation),
      EmailOf(row.contactInformation),
      row.salesManager,
      row.goal,
      row.notes)
  }

}
