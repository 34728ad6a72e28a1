// The subject of a new certificate: the policy check and the removal of email addresses in do_body
// (apps/ca.c), over the name operations of crypto/x509/x509name.c.
module Policy {
  import opened Prelude

  // An entry of a distinguished name: its type, its value (with its string type), and the number
  // of the relative distinguished name it belongs to.
  datatype NameEntry = NameEntry(nid: nat, value: string, rdn: int)
  {
    predicate Same(e: NameEntry) { nid == e.nid && value == e.value }
  }

  type Name = seq<NameEntry>

  const NID_EMAIL: nat := 48

  // A policy line: the type it is for, if its name is known, and its keyword.
  datatype PolicyItem = PolicyItem(nid: Option<nat>, keyword: string)

  // -------------------------------------------------------------------------
  // Name operations.

  function OfType(name: Name, nid: nat): (r: Name)
  {
    if name == [] then [] else (if name[0].nid == nid then [name[0]] else []) + OfType(name[1..], nid)
  }

  // X509_NAME_get_index_by_OBJ: the first entry of the type after position last, or -1.
  method GetIndex(name: Name, nid: nat, last: int) returns (j: int)
    requires -1 <= last < |name|
    ensures j == -1 || (last < j < |name| && name[j].nid == nid)
    ensures forall k :: last < k < (if j == -1 then |name| else j) ==> name[k].nid != nid
  {
    j := last + 1;
    while j < |name|
      invariant last < j <= |name|
      invariant forall k :: last < k < j ==> name[k].nid != nid
    {
      if name[j].nid == nid { return; }
      j := j + 1;
    }
    j := -1;
  }

  // X509_NAME_add_entry(name, e, -1, 0): appends the entry as a relative name of its own.
  function Added(name: Name, e: NameEntry): Name
  {
    name + [e.(rdn := if name == [] then 0 else name[|name| - 1].rdn + 1)]
  }

  function AddedAll(name: Name, es: Name): Name
    decreases |es|
  {
    if es == [] then name else AddedAll(Added(name, es[0]), es[1..])
  }

  lemma {:induction false} AddedAllConcat(name: Name, a: Name, b: Name)
    ensures AddedAll(name, a + b) == AddedAll(AddedAll(name, a), b)
    decreases |a|
  {
    if a == [] {
      assert a + b == b;
    } else {
      assert (a + b)[1..] == a[1..] + b;
      AddedAllConcat(Added(name, a[0]), a[1..], b);
    }
  }

  lemma {:induction false} OfTypeSplit(name: Name, nid: nat, i: nat)
    requires i <= |name|
    ensures OfType(name, nid) == OfType(name[..i], nid) + OfType(name[i..], nid)
  {
    if i > 0 {
      assert name[..i][1..] == name[1..][..i - 1] && name[1..][i - 1..] == name[i..];
      OfTypeSplit(name[1..], nid, i - 1);
    } else {
      assert name[..0] == [] && name[0..] == name;
    }
  }

  lemma {:induction false} OfTypeNone(name: Name, nid: nat)
    requires forall k :: 0 <= k < |name| ==> name[k].nid != nid
    ensures OfType(name, nid) == []
  {
    if name != [] {
      assert forall k :: 0 <= k < |name| - 1 ==> name[1..][k] == name[k + 1];
      OfTypeNone(name[1..], nid);
    }
  }

  // The entries of a type up to the next one found are those up to the last one found, and it.
  lemma OfTypeNext(name: Name, nid: nat, last: int, j: int)
    requires -1 <= last < j < |name| && name[j].nid == nid
    requires forall k :: last < k < j ==> name[k].nid != nid
    ensures OfType(name[..j + 1], nid) == OfType(name[..last + 1], nid) + [name[j]]
  {
    assert OfType([name[j]], nid) == [name[j]] by { assert [name[j]][1..] == []; }
    hide OfType;
    var a, gap := name[..j + 1], name[last + 1..j];
    OfTypeSplit(a, nid, last + 1);
    assert a[..last + 1] == name[..last + 1];
    assert a[last + 1..] == gap + [name[j]];
    OfTypeSplit(gap + [name[j]], nid, |gap|);
    assert (gap + [name[j]])[..|gap|] == gap && (gap + [name[j]])[|gap|..] == [name[j]];
    OfTypeNone(gap, nid);
  }

  lemma OfTypeEnd(name: Name, nid: nat, last: int)
    requires -1 <= last < |name| && forall k :: last < k < |name| ==> name[k].nid != nid
    ensures OfType(name, nid) == OfType(name[..last + 1], nid)
  {
    OfTypeSplit(name, nid, last + 1);
    OfTypeNone(name[last + 1..], nid);
  }

  // -------------------------------------------------------------------------
  // The policy.

  predicate KnownKeyword(k: string)
  {
    k == "optional" || k == "supplied" || k == "match"
  }

  predicate HasType(name: Name, nid: nat)
  {
    exists k :: 0 <= k < |name| && name[k].nid == nid
  }

  // The CA name has an entry of the same type and value.
  predicate InCa(ca: Name, e: NameEntry)
  {
    exists k :: 0 <= k < |ca| && ca[k].Same(e)
  }

  // A line is satisfied: its type and keyword are known, a field that is not optional is present,
  // and every value of a field that must match occurs in the CA name.
  predicate ItemOk(item: PolicyItem, name: Name, ca: Name)
  {
    && item.nid.Some? && KnownKeyword(item.keyword)
    && (item.keyword != "optional" ==> HasType(name, item.nid.value))
    && (item.keyword == "match" ==>
          forall k :: 0 <= k < |name| && name[k].nid == item.nid.value ==> InCa(ca, name[k]))
  }

  predicate PolicyOk(policy: seq<PolicyItem>, name: Name, ca: Name)
  {
    forall i :: 0 <= i < |policy| ==> ItemOk(policy[i], name, ca)
  }

  // The same said of the values that a name has for a type.
  function Values(name: Name, nid: nat): set<string>
  {
    set k | 0 <= k < |name| && name[k].nid == nid :: name[k].value
  }

  predicate Satisfied(item: PolicyItem, name: Name, ca: Name)
  {
    item.nid.Some? &&
    match item.keyword
    case "optional" => true
    case "supplied" => Values(name, item.nid.value) != {}
    case "match" => Values(name, item.nid.value) != {} && Values(name, item.nid.value) <= Values(ca, item.nid.value)
    case _ => false
  }

  lemma ItemOkIffSatisfied(item: PolicyItem, name: Name, ca: Name)
    ensures ItemOk(item, name, ca) <==> Satisfied(item, name, ca)
  {
    if item.nid.Some? {
      var nid := item.nid.value;
      assert HasType(name, nid) ==> Values(name, nid) != {} by {
        if k :| 0 <= k < |name| && name[k].nid == nid { assert name[k].value in Values(name, nid); }
      }
      forall k | 0 <= k < |name| && name[k].nid == nid
        ensures InCa(ca, name[k]) <==> name[k].value in Values(ca, nid)
      {
      }
      if Values(name, nid) <= Values(ca, nid) {
        forall k | 0 <= k < |name| && name[k].nid == nid ensures InCa(ca, name[k]) {
          assert name[k].value in Values(name, nid);
        }
      }
    }
  }

  lemma PolicyOkIff(policy: seq<PolicyItem>, name: Name, ca: Name)
    ensures PolicyOk(policy, name, ca) <==> forall i :: 0 <= i < |policy| ==> Satisfied(policy[i], name, ca)
  {
    hide ItemOk, Satisfied;
    forall i | 0 <= i < |policy| ensures ItemOk(policy[i], name, ca) <==> Satisfied(policy[i], name, ca) {
      ItemOkIffSatisfied(policy[i], name, ca);
    }
  }

  // The request entries of each policy type, in policy order.
  function Chosen(policy: seq<PolicyItem>, name: Name): (r: Name)
    requires forall i :: 0 <= i < |policy| ==> policy[i].nid.Some?
  {
    if policy == [] then [] else OfType(name, policy[0].nid.value) + Chosen(policy[1..], name)
  }

  // The inner search of a "match" line: the first CA entry of the type with the value.
  method FindMatch(ca: Name, e: NameEntry) returns (r: Option<NameEntry>)
    ensures r.Some? <==> InCa(ca, e)
    ensures r.Some? ==> r.value.Same(e)
  {
    var last2 := -1;
    while true
      invariant -1 <= last2 < |ca|
      invariant forall k :: 0 <= k <= last2 ==> !ca[k].Same(e)
      decreases |ca| - last2
    {
      var j := GetIndex(ca, e.nid, last2);
      if j < 0 { return None; }
      last2 := j;
      if ca[j].value == e.value { return Some(ca[j]); }
    }
  }

  lemma AddedAllOne(name: Name, a: Name, e: NameEntry, push: NameEntry)
    requires push.Same(e)
    ensures AddedAll(name, a + [e]) == Added(AddedAll(name, a), push)
  {
    AddedAllConcat(name, a, [e]);
    assert [e][1..] == [];
  }

  // One policy line: adds the request entries of its type to the subject.
  method ApplyItem(subject: Name, item: PolicyItem, name: Name, ca: Name) returns (r: Option<Name>)
    ensures r == if ItemOk(item, name, ca) then Some(AddedAll(subject, OfType(name, item.nid.value))) else None
  {
    hide AddedAll, OfType;
    if item.nid.None? { return None; }
    var nid, out, last := item.nid.value, subject, -1;
    AddedNothing(subject, nid);
    assert name[..0] == [];
    while true
      invariant -1 <= last < |name| && (last >= 0 ==> name[last].nid == nid)
      invariant out == AddedAll(subject, OfType(name[..last + 1], nid))
      invariant last >= 0 ==> KnownKeyword(item.keyword)
      invariant last == -1 ==> name[..last + 1] == []
      invariant item.keyword == "match" ==> forall k :: 0 <= k <= last && name[k].nid == nid ==> InCa(ca, name[k])
      decreases |name| - last
    {
      var j := GetIndex(name, nid, last);
      if j < 0 {
        OfTypeEnd(name, nid, last);
        if last != -1 { break; }
        if item.keyword == "optional" { break; }
        return None;
      }
      OfTypeNext(name, nid, last, j);
      var tne := name[j];
      var push := tne;
      if item.keyword == "match" {
        var found := FindMatch(ca, tne);
        if found.None? { return None; }
        push := found.value;
      } else if item.keyword != "optional" && item.keyword != "supplied" {
        return None;
      }
      AddedAllOne(subject, OfType(name[..last + 1], nid), tne, push);
      out := Added(out, push);
      last := j;
    }
    r := Some(out);
  }

  lemma AddedNothing(subject: Name, nid: nat)
    ensures AddedAll(subject, OfType([], nid)) == subject
  {
  }

  // The policy check succeeds exactly when every line is satisfied; the subject is then the request
  // entries of each type, in policy order, each a relative name of its own.
  method CheckPolicy(policy: seq<PolicyItem>, name: Name, ca: Name) returns (r: Option<Name>)
    ensures r.Some? <==> PolicyOk(policy, name, ca)
    ensures r.Some? ==> r.value == AddedAll([], Chosen(policy, name))
  {
    hide AddedAll, OfType, ItemOk;
    var subject: Name := [];
    AddedNone();
    for i := 0 to |policy|
      invariant PolicyOk(policy[..i], name, ca)
      invariant forall k :: 0 <= k < i ==> policy[k].nid.Some?
      invariant subject == AddedAll([], Chosen(policy[..i], name))
    {
      var out := ApplyItem(subject, policy[i], name, ca);
      if out.None? { return None; }
      ItemKnown(policy[i], name, ca);
      ChosenNext(policy, name, i);
      AddedAllConcat([], Chosen(policy[..i], name), OfType(name, policy[i].nid.value));
      assert policy[..i + 1] == policy[..i] + [policy[i]];
      subject := out.value;
    }
    assert policy[..|policy|] == policy;
    r := Some(subject);
  }

  lemma AddedNone()
    ensures AddedAll([], Chosen([], [])) == []
  {
  }

  lemma ItemKnown(item: PolicyItem, name: Name, ca: Name)
    requires ItemOk(item, name, ca)
    ensures item.nid.Some?
  {
  }

  lemma {:induction false} ChosenNext(policy: seq<PolicyItem>, name: Name, i: nat)
    requires i < |policy| && forall k :: 0 <= k <= i ==> policy[k].nid.Some?
    ensures Chosen(policy[..i + 1], name) == Chosen(policy[..i], name) + OfType(name, policy[i].nid.value)
    decreases i
  {
    hide OfType;
    if i > 0 {
      var tail := policy[1..];
      assert policy[..i + 1][1..] == tail[..i] && policy[..i][1..] == tail[..i - 1];
      ChosenNext(tail, name, i - 1);
    } else {
      assert policy[..1][1..] == [];
    }
  }

  // Entries that are added one after the other are numbered from 0, and otherwise unchanged.
  lemma {:induction false} AddedAllNumbers(es: Name, n: nat)
    requires n <= |es|
    ensures var r := AddedAll([], es[..n]);
            |r| == n && forall i :: 0 <= i < n ==> r[i].Same(es[i]) && r[i].rdn == i
  {
    if n > 0 {
      AddedAllNumbers(es, n - 1);
      assert es[..n] == es[..n - 1] + [es[n - 1]];
      AddedAllOne([], es[..n - 1], es[n - 1], es[n - 1]);
    }
  }

  // -------------------------------------------------------------------------
  // Removing email addresses.

  // Relative names are numbered consecutively from 0.
  predicate Numbered(name: Name)
  {
    && (name != [] ==> name[0].rdn == 0)
    && forall i :: 0 < i < |name| ==> name[i - 1].rdn <= name[i].rdn <= name[i - 1].rdn + 1
  }

  // X509_NAME_delete_entry: closes the gap in the numbers if the entry was a relative name of its own.
  function Deleted(name: Name, loc: nat): (r: Name)
    requires loc < |name|
    ensures |r| == |name| - 1
  {
    var rest := name[loc + 1..];
    if rest == [] then name[..loc]
    else
      var prev := if loc != 0 then name[loc - 1].rdn else name[loc].rdn - 1;
      if prev + 1 < rest[0].rdn then name[..loc] + Lowered(rest) else name[..loc] + rest
  }

  function Lowered(name: Name): (r: Name)
    ensures |r| == |name| && forall i :: 0 <= i < |name| ==> r[i] == name[i].(rdn := name[i].rdn - 1)
  {
    if name == [] then [] else [name[0].(rdn := name[0].rdn - 1)] + Lowered(name[1..])
  }

  // The same entries, with the same ones together in a relative name.
  ghost predicate SameGroups(a: Name, b: Name)
  {
    && |a| == |b|
    && (forall i :: 0 <= i < |a| ==> a[i].Same(b[i]))
    && (forall i, j :: 0 <= i < j < |a| ==> (a[i].rdn == a[j].rdn <==> b[i].rdn == b[j].rdn))
  }

  lemma {:induction false} NumberedOrder(name: Name, i: nat, j: nat)
    requires Numbered(name) && i <= j < |name|
    ensures name[i].rdn <= name[j].rdn
  {
    if i < j { NumberedOrder(name, i, j - 1); }
  }

  // By how much the numbers after a deleted entry go down.
  function Drop(name: Name, loc: nat): int
    requires loc < |name|
  {
    if loc + 1 == |name| then 0
    else if (if loc != 0 then name[loc - 1].rdn else name[loc].rdn - 1) + 1 < name[loc + 1].rdn then 1 else 0
  }

  lemma DeletedAt(name: Name, loc: nat, i: nat)
    requires loc < |name| && i < |name| - 1
    ensures Deleted(name, loc)[i] == if i < loc then name[i] else name[i + 1].(rdn := name[i + 1].rdn - Drop(name, loc))
  {
    hide Lowered;
    assert i >= loc ==> name[loc + 1..][i - loc] == name[i + 1];
  }

  lemma NumberedNext(name: Name, i: nat)
    requires Numbered(name) && 0 < i < |name|
    ensures name[i - 1].rdn <= name[i].rdn <= name[i - 1].rdn + 1
  {
  }

  lemma DeletedNext(name: Name, loc: nat, i: nat)
    requires Numbered(name) && loc < |name| && 0 < i < |name| - 1
    ensures Deleted(name, loc)[i - 1].rdn <= Deleted(name, loc)[i].rdn <= Deleted(name, loc)[i - 1].rdn + 1
  {
    hide Deleted, Numbered;
    DeletedAt(name, loc, i - 1);
    DeletedAt(name, loc, i);
    NumberedNext(name, i);
    NumberedNext(name, i + 1);
  }

  lemma DeletedNumbered(name: Name, loc: nat)
    requires Numbered(name) && loc < |name|
    ensures Numbered(Deleted(name, loc))
  {
    var b := Deleted(name, loc);
    hide Deleted;
    if |name| > 1 {
      DeletedAt(name, loc, 0);
      NumberedNext(name, 1);
    }
    forall i | 0 < i < |b| ensures b[i - 1].rdn <= b[i].rdn <= b[i - 1].rdn + 1 { DeletedNext(name, loc, i); }
  }

  // Two entries on either side of the deleted one are together exactly if they were.
  lemma DeletedAcross(name: Name, loc: nat, i: nat, j: nat)
    requires Numbered(name) && i < loc <= j < |name| - 1
    ensures name[i].rdn == name[j + 1].rdn <==> name[i].rdn == name[j + 1].rdn - Drop(name, loc)
  {
    NumberedOrder(name, i, loc - 1);
    NumberedOrder(name, loc + 1, j + 1);
  }

  // Deleting an entry keeps the numbering, and the structure of the other entries.
  lemma DeletedGroups(name: Name, loc: nat)
    requires Numbered(name) && loc < |name|
    ensures Numbered(Deleted(name, loc))
    ensures SameGroups(name[..loc] + name[loc + 1..], Deleted(name, loc))
  {
    DeletedNumbered(name, loc);
    var a, b := name[..loc] + name[loc + 1..], Deleted(name, loc);
    hide Deleted, Numbered, Drop;
    forall i | 0 <= i < |a| ensures a[i].Same(b[i]) { DeletedAt(name, loc, i); }
    forall i, j | 0 <= i < j < |a| ensures a[i].rdn == a[j].rdn <==> b[i].rdn == b[j].rdn {
      DeletedAt(name, loc, i);
      DeletedAt(name, loc, j);
      if i < loc <= j { DeletedAcross(name, loc, i, j); }
    }
  }

  function WithoutEmail(name: Name): (r: Name)
  {
    if name == [] then [] else (if name[0].nid == NID_EMAIL then [] else [name[0]]) + WithoutEmail(name[1..])
  }

  lemma {:induction false} WithoutEmailDrops(name: Name, loc: nat)
    requires loc < |name| && name[loc].nid == NID_EMAIL
    ensures WithoutEmail(name[..loc] + name[loc + 1..]) == WithoutEmail(name)
  {
    var a := name[..loc] + name[loc + 1..];
    if loc > 0 {
      assert a[1..] == name[1..][..loc - 1] + name[1..][loc..];
      WithoutEmailDrops(name[1..], loc - 1);
    } else {
      assert a == name[1..];
    }
  }

  lemma {:induction false} WithoutEmailNone(name: Name)
    requires forall i :: 0 <= i < |name| ==> name[i].nid != NID_EMAIL
    ensures WithoutEmail(name) == name
  {
    if name != [] {
      assert forall i :: 0 <= i < |name| - 1 ==> name[1..][i] == name[i + 1];
      WithoutEmailNone(name[1..]);
    }
  }

  lemma SameGroupsSkip(a: Name, b: Name, loc: nat)
    requires SameGroups(a, b) && loc < |b|
    ensures SameGroups(a[..loc] + a[loc + 1..], b[..loc] + b[loc + 1..])
  {
    var a', b' := a[..loc] + a[loc + 1..], b[..loc] + b[loc + 1..];
    forall i | 0 <= i < |a'|
      ensures a'[i] == a[if i < loc then i else i + 1] && b'[i] == b[if i < loc then i else i + 1]
    {
    }
  }

  lemma SameGroupsTrans(a: Name, b: Name, c: Name)
    requires SameGroups(a, b) && SameGroups(b, c)
    ensures SameGroups(a, c)
  {
    forall i | 0 <= i < |a| ensures a[i].Same(c[i]) { assert a[i].Same(b[i]) && b[i].Same(c[i]); }
  }

  lemma SameGroupsDelete(a: Name, b: Name, loc: nat)
    requires SameGroups(a, b) && Numbered(b) && loc < |b|
    ensures |a| == |b| && Numbered(Deleted(b, loc)) && SameGroups(a[..loc] + a[loc + 1..], Deleted(b, loc))
  {
    SameGroupsAt(a, b);
    hide Deleted, Numbered, SameGroups;
    DeletedGroups(b, loc);
    SameGroupsSkip(a, b, loc);
    SameGroupsTrans(a[..loc] + a[loc + 1..], b[..loc] + b[loc + 1..], Deleted(b, loc));
  }

  // The loop of do_body: every email entry is removed, and nothing else; the other entries keep
  // their order and stay together in the same relative names.
  method RemoveEmails(name: Name) returns (dn: Name)
    requires Numbered(name)
    ensures Numbered(dn) && SameGroups(WithoutEmail(name), dn)
  {
    hide SameGroups, Numbered;
    dn := name;
    ghost var kept := name;
    SameGroupsRefl(name);
    var i := GetIndex(dn, NID_EMAIL, -1);
    while i >= 0
      invariant i == -1 || (0 <= i < |dn| && dn[i].nid == NID_EMAIL)
      invariant forall k :: 0 <= k < (if i == -1 then |dn| else i) ==> dn[k].nid != NID_EMAIL
      invariant Numbered(dn) && SameGroups(kept, dn) && WithoutEmail(kept) == WithoutEmail(name)
      decreases |dn|
    {
      SameGroupsAt(kept, dn);
      SameGroupsDelete(kept, dn, i);
      WithoutEmailDrops(kept, i);
      kept := kept[..i] + kept[i + 1..];
      ghost var before := dn;
      dn := Deleted(dn, i);
      i := i - 1;
      assert forall k :: 0 <= k <= i ==> dn[k] == before[k];
      i := GetIndex(dn, NID_EMAIL, i);
    }
    SameGroupsAt(kept, dn);
    WithoutEmailNone(kept);
  }

  lemma SameGroupsRefl(name: Name)
    ensures SameGroups(name, name)
  {
  }

  lemma SameGroupsAt(a: Name, b: Name)
    requires SameGroups(a, b)
    ensures |a| == |b| && forall i :: 0 <= i < |a| ==> a[i].nid == b[i].nid
  {
    assert forall i :: 0 <= i < |a| ==> a[i].Same(b[i]);
  }

  // -------------------------------------------------------------------------
  // The subject as a whole.

  ghost predicate SameEntries(a: Name, b: Name)
  {
    |a| == |b| && forall i :: 0 <= i < |a| ==> a[i].Same(b[i])
  }

  // Every entry is a relative name of its own.
  ghost predicate Apart(name: Name)
  {
    forall i, j :: 0 <= i < j < |name| ==> name[i].rdn < name[j].rdn
  }

  lemma {:induction false} WithoutEmailFrom(name: Name)
    ensures forall e :: e in WithoutEmail(name) ==> e in name
  {
    if name != [] { WithoutEmailFrom(name[1..]); }
  }

  lemma {:induction false} WithoutEmailApart(name: Name)
    requires Apart(name)
    ensures Apart(WithoutEmail(name))
  {
    if name != [] {
      WithoutEmailFrom(name[1..]);
      WithoutEmailApart(name[1..]);
      var w := WithoutEmail(name[1..]);
      assert forall e :: e in name[1..] ==> name[0].rdn < e.rdn;
      assert forall i :: 0 <= i < |w| ==> w[i] in w;
      hide WithoutEmail;
      assert Apart([name[0]] + w);
      assert [] + w == w;
    }
  }

  lemma {:induction false} WithoutEmailSame(a: Name, b: Name)
    requires SameEntries(a, b)
    ensures SameEntries(WithoutEmail(a), WithoutEmail(b))
  {
    if a != [] {
      assert a[0].Same(b[0]);
      assert forall i :: 0 <= i < |a| - 1 ==> a[1..][i] == a[i + 1] && b[1..][i] == b[i + 1];
      WithoutEmailSame(a[1..], b[1..]);
    }
  }

  lemma {:induction false} ApartNumbers(a: Name, dn: Name, i: nat)
    requires Apart(a) && SameGroups(a, dn) && Numbered(dn) && i < |dn|
    ensures dn[i].rdn == i
  {
    if i > 0 {
      ApartNumbers(a, dn, i - 1);
      assert a[i - 1].rdn < a[i].rdn;
    }
  }

  // The subject that a request and a policy ask for.
  function Asked(policy: seq<PolicyItem>, name: Name, emailDn: bool): Name
    requires forall i :: 0 <= i < |policy| ==> policy[i].nid.Some?
  {
    if emailDn then Chosen(policy, name) else WithoutEmail(Chosen(policy, name))
  }

  lemma PolicyNames(policy: seq<PolicyItem>, name: Name, ca: Name)
    requires PolicyOk(policy, name, ca)
    ensures forall i :: 0 <= i < |policy| ==> policy[i].nid.Some?
  {
    assert forall i :: 0 <= i < |policy| ==> ItemOk(policy[i], name, ca);
  }

  lemma ChosenAdded(es: Name)
    ensures var subject := AddedAll([], es); SameEntries(es, subject) && Apart(subject) && Numbered(subject)
  {
    AddedAllNumbers(es, |es|);
    assert es[..|es|] == es;
  }

  // -------------------------------------------------------------------------
  // The subject said of its entries, type by type and line by line.

  function Repeated(es: Name, k: nat): Name
  {
    if k == 0 then [] else es + Repeated(es, k - 1)
  }

  // The number of policy lines for a type.
  function LinesFor(policy: seq<PolicyItem>, nid: nat): nat
  {
    if policy == [] then 0
    else (if policy[0].nid == Some(nid) then 1 else 0) + LinesFor(policy[1..], nid)
  }

  // Every entry comes from a policy line of its type, and the lines do not go back.
  ghost predicate FromLines(policy: seq<PolicyItem>, name: Name, lines: seq<nat>)
  {
    && |lines| == |name|
    && (forall i :: 0 <= i < |name| ==> lines[i] < |policy| && policy[lines[i]].nid == Some(name[i].nid))
    && (forall i, j :: 0 <= i < j < |lines| ==> lines[i] <= lines[j])
  }

  // Without email addresses (type 48) if they are off, the entries of a type are those of the request, once for each
  // line of the type, and all entries stand in the order of the policy.
  ghost predicate IsSubject(policy: seq<PolicyItem>, name: Name, emailDn: bool, subject: Name)
  {
    && (!emailDn ==> forall i :: 0 <= i < |subject| ==> subject[i].nid != 48)
    && (forall nid: nat :: emailDn || nid != 48 ==>
          SameEntries(OfType(subject, nid), Repeated(OfType(name, nid), LinesFor(policy, nid))))
    && exists lines :: FromLines(policy, subject, lines)
  }

  lemma OfTypeAppend(a: Name, b: Name, nid: nat)
    ensures OfType(a + b, nid) == OfType(a, nid) + OfType(b, nid)
  {
    OfTypeSplit(a + b, nid, |a|);
    assert (a + b)[..|a|] == a && (a + b)[|a|..] == b;
  }

  lemma {:induction false} OfTypeTwice(name: Name, x: nat, nid: nat)
    ensures OfType(OfType(name, x), nid) == if x == nid then OfType(name, x) else []
    ensures forall i :: 0 <= i < |OfType(name, x)| ==> OfType(name, x)[i].nid == x
  {
    if name != [] {
      var tail := OfType(name[1..], x);
      OfTypeTwice(name[1..], x, nid);
      assert ([name[0]] + tail)[1..] == tail && [] + tail == tail;
    }
  }

  lemma {:induction false} ChosenOfType(policy: seq<PolicyItem>, name: Name, nid: nat)
    requires forall i :: 0 <= i < |policy| ==> policy[i].nid.Some?
    ensures OfType(Chosen(policy, name), nid) == Repeated(OfType(name, nid), LinesFor(policy, nid))
  {
    if policy == [] {
      assert OfType([], nid) == [];
    } else {
      var x := policy[0].nid.value;
      hide OfType, Chosen;
      ChosenOfType(policy[1..], name, nid);
      ChosenFirst(policy, name);
      OfTypeAppend(OfType(name, x), Chosen(policy[1..], name), nid);
      OfTypeTwice(name, x, nid);
      assert [] + OfType(Chosen(policy[1..], name), nid) == OfType(Chosen(policy[1..], name), nid);
    }
  }

  lemma {:induction false} ChosenLines(policy: seq<PolicyItem>, name: Name) returns (lines: seq<nat>)
    requires forall i :: 0 <= i < |policy| ==> policy[i].nid.Some?
    ensures FromLines(policy, Chosen(policy, name), lines)
  {
    if policy == [] {
      lines := [];
    } else {
      var first, rest := OfType(name, policy[0].nid.value), Chosen(policy[1..], name);
      var more := ChosenLines(policy[1..], name);
      OfTypeTwice(name, policy[0].nid.value, 0);
      hide OfType, Chosen;
      lines := seq(|first|, _ => 0) + seq(|more|, i requires 0 <= i < |more| => more[i] + 1);
      LinesJoined(policy, first, rest, more, lines);
      assert Chosen(policy, name) == first + rest by { ChosenFirst(policy, name); }
    }
  }

  lemma ChosenFirst(policy: seq<PolicyItem>, name: Name)
    requires policy != [] && forall i :: 0 <= i < |policy| ==> policy[i].nid.Some?
    ensures Chosen(policy, name) == OfType(name, policy[0].nid.value) + Chosen(policy[1..], name)
  {
    hide OfType;
  }

  lemma LinesJoined(policy: seq<PolicyItem>, first: Name, rest: Name, more: seq<nat>, lines: seq<nat>)
    requires policy != [] && FromLines(policy[1..], rest, more)
    requires forall i :: 0 <= i < |first| ==> policy[0].nid == Some(first[i].nid)
    requires |lines| == |first| + |more|
    requires forall i :: 0 <= i < |lines| ==> lines[i] == if i < |first| then 0 else more[i - |first|] + 1
    ensures FromLines(policy, first + rest, lines)
  {
    var all := first + rest;
    forall i | 0 <= i < |all| ensures lines[i] < |policy| && policy[lines[i]].nid == Some(all[i].nid) {
      if i >= |first| { assert policy[1..][more[i - |first|]] == policy[lines[i]]; }
    }
  }

  // -------------------------------------------------------------------------
  // Taking the email addresses away keeps all this.

  lemma {:induction false} WithoutEmailOfType(name: Name, nid: nat)
    ensures nid != NID_EMAIL ==> OfType(WithoutEmail(name), nid) == OfType(name, nid)
    ensures forall i :: 0 <= i < |WithoutEmail(name)| ==> WithoutEmail(name)[i].nid != NID_EMAIL
  {
    if name != [] {
      var tail := WithoutEmail(name[1..]);
      WithoutEmailOfType(name[1..], nid);
      assert ([name[0]] + tail)[1..] == tail && [] + tail == tail;
      assert [] + OfType(name[1..], nid) == OfType(name[1..], nid);
    }
  }

  lemma WithoutEmailFirst(name: Name)
    requires name != []
    ensures WithoutEmail(name)
         == if name[0].nid == NID_EMAIL then WithoutEmail(name[1..]) else [name[0]] + WithoutEmail(name[1..])
  {
    assert [] + WithoutEmail(name[1..]) == WithoutEmail(name[1..]);
  }

  lemma LinesRest(policy: seq<PolicyItem>, name: Name, lines: seq<nat>)
    requires name != [] && FromLines(policy, name, lines)
    ensures FromLines(policy, name[1..], lines[1..])
    ensures lines[0] < |policy| && policy[lines[0]].nid == Some(name[0].nid)
    ensures forall k :: k in lines[1..] ==> lines[0] <= k && k in lines
  {
    assert forall i :: 0 <= i < |name| - 1 ==> name[1..][i] == name[i + 1] && lines[1..][i] == lines[i + 1];
  }

  lemma LinesFrom(policy: seq<PolicyItem>, e: NameEntry, line: nat, rest: Name, more: seq<nat>)
    requires FromLines(policy, rest, more) && line < |policy| && policy[line].nid == Some(e.nid)
    requires forall k :: k in more ==> line <= k
    ensures FromLines(policy, [e] + rest, [line] + more)
  {
    assert forall i :: 0 <= i < |more| ==> more[i] in more;
    assert forall i :: 0 < i <= |rest| ==> ([e] + rest)[i] == rest[i - 1] && ([line] + more)[i] == more[i - 1];
  }

  lemma {:induction false} WithoutEmailLines(policy: seq<PolicyItem>, name: Name, lines: seq<nat>)
    returns (kept: seq<nat>)
    requires FromLines(policy, name, lines)
    ensures FromLines(policy, WithoutEmail(name), kept)
    ensures forall k :: k in kept ==> k in lines
    decreases |name|
  {
    if name == [] {
      kept := [];
    } else {
      assert |lines| == |name|;
      hide FromLines, WithoutEmail;
      LinesRest(policy, name, lines);
      WithoutEmailFirst(name);
      var more := WithoutEmailLines(policy, name[1..], lines[1..]);
      kept := more;
      if name[0].nid != NID_EMAIL {
        kept := [lines[0]] + more;
        LinesFrom(policy, name[0], lines[0], WithoutEmail(name[1..]), more);
      }
    }
  }

  lemma {:induction false} OfTypeSame(a: Name, b: Name, nid: nat)
    requires SameEntries(a, b)
    ensures SameEntries(OfType(a, nid), OfType(b, nid))
  {
    if a != [] {
      assert a[0].Same(b[0]);
      assert forall i :: 0 <= i < |a| - 1 ==> a[1..][i] == a[i + 1] && b[1..][i] == b[i + 1];
      OfTypeSame(a[1..], b[1..], nid);
    }
  }

  lemma SameEntriesBack(a: Name, b: Name)
    requires SameEntries(a, b)
    ensures SameEntries(b, a)
  {
    forall i | 0 <= i < |a| ensures b[i].Same(a[i]) { assert a[i].Same(b[i]); }
  }

  // Whatever has the entries that the request and the policy ask for is such a subject.
  lemma AskedIsSubject(policy: seq<PolicyItem>, name: Name, emailDn: bool, subject: Name)
    requires forall i :: 0 <= i < |policy| ==> policy[i].nid.Some?
    requires SameEntries(Asked(policy, name, emailDn), subject)
    ensures IsSubject(policy, name, emailDn, subject)
  {
    var asked, chosen := Asked(policy, name, emailDn), Chosen(policy, name);
    forall i | 0 <= i < |subject| ensures subject[i].nid == asked[i].nid { assert asked[i].Same(subject[i]); }
    WithoutEmailOfType(chosen, 0);
    hide OfType, Chosen, WithoutEmail, Repeated, LinesFor, SameEntries;
    forall nid: nat | emailDn || nid != NID_EMAIL
      ensures SameEntries(OfType(subject, nid), Repeated(OfType(name, nid), LinesFor(policy, nid)))
    {
      ChosenOfType(policy, name, nid);
      WithoutEmailOfType(chosen, nid);
      OfTypeSame(asked, subject, nid);
      SameEntriesBack(OfType(asked, nid), OfType(subject, nid));
    }
    var lines := ChosenLines(policy, name);
    if !emailDn { lines := WithoutEmailLines(policy, chosen, lines); }
    SameLength(asked, subject);
    assert FromLines(policy, subject, lines);
  }

  lemma SameLength(a: Name, b: Name)
    requires SameEntries(a, b)
    ensures |a| == |b|
  {
  }

  // What do_body makes the subject of the certificate, with preserve off.
  method MakeSubject(policy: seq<PolicyItem>, name: Name, ca: Name, emailDn: bool) returns (r: Option<Name>)
    ensures r.Some? <==> forall i :: 0 <= i < |policy| ==> Satisfied(policy[i], name, ca)
    ensures r.Some? ==> IsSubject(policy, name, emailDn, r.value)
    ensures r.Some? ==> SameEntries(Asked(policy, name, emailDn), r.value)
    ensures r.Some? ==> forall i :: 0 <= i < |r.value| ==> r.value[i].rdn == i
  {
    PolicyOkIff(policy, name, ca);
    r := CheckPolicy(policy, name, ca);
    if r.None? { return; }
    PolicyNames(policy, name, ca);
    var subject := r.value;
    ChosenAdded(Chosen(policy, name));
    hide PolicyOk, Chosen, AddedAll, WithoutEmail, Numbered, Apart, IsSubject;
    SameGroupsRefl(subject);
    if emailDn {
      forall i | 0 <= i < |subject| ensures subject[i].rdn == i { ApartNumbers(subject, subject, i); }
    } else {
      var dn := RemoveEmails(subject);
      WithoutEmailApart(subject);
      WithoutEmailSame(Chosen(policy, name), subject);
      forall i | 0 <= i < |dn| ensures dn[i].rdn == i { ApartNumbers(WithoutEmail(subject), dn, i); }
      r := Some(dn);
    }
    AskedIsSubject(policy, name, emailDn, r.value);
  }
}
