/** The attribute filter parser behind C_FindObjectsInit: it turns a caller's
    attribute template into the key id (or label) to search for, or into
    "no filter" (fetch every key). */
module AttrFilter {
  import opened Types

  /** The attribute type of a template entry. Only CKA_ID and CKA_LABEL are
      inspected; `Other` stands for every other attribute type code. */
  datatype AttrType = Id | Label | Other(code: nat)

  /** One raw template entry: its type and its value bytes, if it has any. */
  datatype Attr = Attr(kind: AttrType, val: Option<seq<byte>>)

  /** Stands for `String::from_utf8`: `Some(text)` exactly when the bytes are
      valid UTF-8. The decoding algorithm itself is not modelled. */
  type Utf8Decoder = seq<byte> -> Option<string>

  predicate Recognised(a: Attr) {
    a.kind.Id? || a.kind.Label?
  }

  /** The entry has a value and that value is valid UTF-8. */
  predicate Decodes(a: Attr, decode: Utf8Decoder) {
    a.val.Some? && decode(a.val.value).Some?
  }

  function Text(a: Attr, decode: Utf8Decoder): string
    requires Decodes(a, decode)
  {
    decode(a.val.value).value
  }

  /** `parse_str_from_attr`: the entry's value as text; a missing value or
      bytes that are not UTF-8 give CKR_ARGUMENTS_BAD. */
  function ParseStrFromAttr(a: Attr, decode: Utf8Decoder): (r: Result<string>)
    ensures r.Success? <==> Decodes(a, decode)
    ensures r.Success? ==> r.value == Text(a, decode)
    ensures r.Failure? ==> r.error == ArgumentsBad
  {
    match a.val
    case None => Failure(ArgumentsBad)
    case Some(bytes) =>
      match decode(bytes)
      case None => Failure(ArgumentsBad)
      case Some(s) => Success(s)
  }

  // ---------------------------------------------------------------------
  // A declarative reference definition of what the template scan computes

  /** Index of the first CKA_ID entry, or |t| when there is none. */
  function FirstId(t: seq<Attr>): (n: nat)
    ensures n <= |t|
    ensures n < |t| ==> t[n].kind.Id?
    ensures forall j :: 0 <= j < n ==> !t[j].kind.Id?
  {
    if t == [] then 0
    else if t[0].kind.Id? then 0
    else 1 + FirstId(t[1..])
  }

  /** Number of entries the scan looks at: up to and including the first ID. */
  function Visited(t: seq<Attr>): (v: nat)
    ensures v <= |t|
  {
    if FirstId(t) < |t| then FirstId(t) + 1 else |t|
  }

  /** Index of the last CKA_LABEL entry of t, if there is one. */
  function LastLabel(t: seq<Attr>): (r: Option<nat>)
    ensures r.Some? ==> r.value < |t| && t[r.value].kind.Label?
    ensures r.Some? ==> forall j :: r.value < j < |t| ==> !t[j].kind.Label?
    ensures r.None? ==> forall j :: 0 <= j < |t| ==> !t[j].kind.Label?
  {
    if t == [] then None
    else if t[|t| - 1].kind.Label? then Some(|t| - 1)
    else LastLabel(t[..|t| - 1])
  }

  /** Among the first k entries there is an ID or LABEL whose value does not decode. */
  predicate BadEntryIn(t: seq<Attr>, k: nat, decode: Utf8Decoder)
    requires k <= |t|
  {
    exists j :: 0 <= j < k && Recognised(t[j]) && !Decodes(t[j], decode)
  }

  /** What scanning a present template yields: an error if any visited ID or
      LABEL entry is undecodable; otherwise the first ID's text; otherwise the
      text of the last LABEL; otherwise no filter. */
  function ScanFilter(t: seq<Attr>, decode: Utf8Decoder): Result<Option<string>>
  {
    if BadEntryIn(t, Visited(t), decode) then Failure(ArgumentsBad)
    else if FirstId(t) < |t| then Success(Some(Text(t[FirstId(t)], decode)))
    else
      match LastLabel(t)
      case None => Success(None)
      case Some(j) => Success(Some(Text(t[j], decode)))
  }

  /** What `find_key_id` yields for an optional template. */
  function FilterOf(template: Option<seq<Attr>>, decode: Utf8Decoder): Result<Option<string>>
  {
    match template
    case None => Success(None)
    case Some(t) => ScanFilter(t, decode)
  }

  // ---------------------------------------------------------------------
  // The scan loop itself

  /** `find_key_id`: scan the template in order, let each LABEL set the
      candidate, stop at the first ID. */
  method FindKeyId(template: Option<seq<Attr>>, decode: Utf8Decoder) returns (r: Result<Option<string>>)
    ensures r == FilterOf(template, decode)
  {
    match template {
      case None =>
        r := Success(None);
      case Some(t) =>
        var keyId: Option<string> := None;
        var i := 0;
        while i < |t|
          invariant i <= |t|
          invariant forall j :: 0 <= j < i ==> !t[j].kind.Id?
          invariant !BadEntryIn(t, i, decode)
          invariant keyId == match LastLabel(t[..i])
                             case None => None
                             case Some(j) => Some(Text(t[j], decode))
        {
          if t[i].kind.Id? {
            var s := ParseStrFromAttr(t[i], decode);
            if s.Failure? {
              assert FirstId(t) == i;
              assert BadEntryIn(t, Visited(t), decode);
              return Failure(s.error);
            }
            keyId := Some(s.value);
            assert FirstId(t) == i;
            break;
          }
          if t[i].kind.Label? {
            var s := ParseStrFromAttr(t[i], decode);
            if s.Failure? {
              assert FirstId(t) > i;
              assert BadEntryIn(t, Visited(t), decode);
              return Failure(s.error);
            }
            keyId := Some(s.value);
          }
          assert t[..i + 1][..i] == t[..i];
          i := i + 1;
        }
        if i == |t| {
          assert t[..i] == t;
        }
        r := Success(keyId);
    }
  }

  // ---------------------------------------------------------------------
  // Properties of the filter

  /** FirstId is the index its contract describes (the contract pins it down). */
  lemma FirstIdIs(t: seq<Attr>, n: nat)
    requires n <= |t|
    requires forall j :: 0 <= j < n ==> !t[j].kind.Id?
    requires n < |t| ==> t[n].kind.Id?
    ensures FirstId(t) == n
  {
  }

  /** LastLabel is the index its contract describes (the contract pins it down). */
  lemma LastLabelIs(t: seq<Attr>, r: Option<nat>)
    requires r.Some? ==> r.value < |t| && t[r.value].kind.Label?
    requires r.Some? ==> forall j :: r.value < j < |t| ==> !t[j].kind.Label?
    requires r.None? ==> forall j :: 0 <= j < |t| ==> !t[j].kind.Label?
    ensures LastLabel(t) == r
  {
  }

  /** Entries after the first ID are never looked at. */
  lemma IdEndsScan(t: seq<Attr>, u: seq<Attr>, decode: Utf8Decoder)
    requires FirstId(t) < |t|
    ensures ScanFilter(t + u, decode) == ScanFilter(t, decode)
  {
    var n := FirstId(t);
    assert forall j :: 0 <= j <= n ==> (t + u)[j] == t[j];
    FirstIdIs(t + u, n);
    assert BadEntryIn(t + u, n + 1, decode) == BadEntryIn(t, n + 1, decode);
  }

  /** With no ID in the template, a later LABEL replaces an earlier candidate. */
  lemma LaterLabelOverrides(t: seq<Attr>, a: Attr, decode: Utf8Decoder)
    requires FirstId(t) == |t|
    requires a.kind.Label? && Decodes(a, decode)
    requires ScanFilter(t, decode).Success?
    ensures ScanFilter(t + [a], decode) == Success(Some(Text(a, decode)))
  {
  }

  /** With no ID before it, an ID wins over every earlier LABEL, and the
      entries after it do not matter. */
  lemma IdOverridesEarlierLabels(t: seq<Attr>, a: Attr, u: seq<Attr>, decode: Utf8Decoder)
    requires FirstId(t) == |t| && !BadEntryIn(t, |t|, decode)
    requires a.kind.Id? && Decodes(a, decode)
    ensures ScanFilter(t + [a] + u, decode) == Success(Some(Text(a, decode)))
  {
    var t' := t + [a];
    assert forall j :: 0 <= j < |t| ==> t'[j] == t[j];
    FirstIdIs(t', |t|);
    IdEndsScan(t', u, decode);
    assert !BadEntryIn(t', |t'|, decode) by {
      forall j | 0 <= j < |t'| && Recognised(t'[j])
        ensures Decodes(t'[j], decode)
      {
        if j < |t| {
          assert t'[j] == t[j];
        }
      }
    }
  }

  /** An ID or LABEL entry reached by the scan whose value is missing or not
      UTF-8 makes the whole parse fail with CKR_ARGUMENTS_BAD. */
  lemma UndecodableEntryFails(t: seq<Attr>, j: nat, decode: Utf8Decoder)
    requires j < |t| && Recognised(t[j]) && !Decodes(t[j], decode)
    requires forall k :: 0 <= k < j ==> !t[k].kind.Id?
    ensures ScanFilter(t, decode) == Failure(ArgumentsBad)
  {
  }

  /** Entries of other attribute types are ignored wherever they stand. */
  lemma OtherKindIgnored(t: seq<Attr>, a: Attr, u: seq<Attr>, decode: Utf8Decoder)
    requires !Recognised(a)
    ensures ScanFilter(t + [a] + u, decode) == ScanFilter(t + u, decode)
  {
    var s, s' := t + u, t + [a] + u;
    var k := |t|;
    // s' is s with `a` inserted at position k; Up maps positions of s to s'
    InsertedAt(t, a, u);
    FirstIdShifts(s, s', k);
    BadEntryShifts(s, s', k, decode);
    LastLabelShifts(s, s', k);
  }

  /** t + [a] + u is t + u with a inserted at position |t|. */
  lemma InsertedAt(t: seq<Attr>, a: Attr, u: seq<Attr>)
    ensures |t + [a] + u| == |t + u| + 1 && (t + [a] + u)[|t|] == a
    ensures forall j :: 0 <= j < |t + u| ==> (t + [a] + u)[Up(j, |t|)] == (t + u)[j]
  {
    var s, s' := t + u, t + [a] + u;
    forall j | 0 <= j < |s| ensures s'[Up(j, |t|)] == s[j] {
      if j >= |t| { assert s'[j + 1] == u[j - |t|]; }
    }
  }

  /** s' is s with one entry that is neither ID nor LABEL inserted at k. */
  predicate InsertsOther(s: seq<Attr>, s': seq<Attr>, k: nat) {
    && k <= |s| && |s'| == |s| + 1 && !Recognised(s'[k])
    && (forall j :: 0 <= j < |s| ==> s'[Up(j, k)] == s[j])
  }

  lemma FirstIdShifts(s: seq<Attr>, s': seq<Attr>, k: nat)
    requires InsertsOther(s, s', k)
    ensures FirstId(s') == Up(FirstId(s), k)
  {
    var n := FirstId(s);
    var n' := Up(n, k);
    forall j | 0 <= j < n' ensures !s'[j].kind.Id? {
      if j > k { assert s'[Up(j - 1, k)] == s[j - 1]; }
      else if j < k { assert s'[Up(j, k)] == s[j]; }
    }
    if n < |s| { assert s'[Up(n, k)] == s[n]; }
    FirstIdIs(s', n');
  }

  lemma BadEntryShifts(s: seq<Attr>, s': seq<Attr>, k: nat, decode: Utf8Decoder)
    requires InsertsOther(s, s', k) && FirstId(s') == Up(FirstId(s), k)
    ensures BadEntryIn(s', Visited(s'), decode) == BadEntryIn(s, Visited(s), decode)
  {
    var v, v' := Visited(s), Visited(s');
    if BadEntryIn(s', v', decode) {
      var j :| 0 <= j < v' && Recognised(s'[j]) && !Decodes(s'[j], decode);
      assert j != k;
      var i := if j < k then j else j - 1;
      assert s'[Up(i, k)] == s[i];
      assert Up(i, k) == j && i < v;
    }
    if BadEntryIn(s, v, decode) {
      var i :| 0 <= i < v && Recognised(s[i]) && !Decodes(s[i], decode);
      assert s'[Up(i, k)] == s[i];
    }
  }

  lemma LastLabelShifts(s: seq<Attr>, s': seq<Attr>, k: nat)
    requires InsertsOther(s, s', k)
    ensures LastLabel(s') == if LastLabel(s).Some? then Some(Up(LastLabel(s).value, k)) else None
  {
    var l := LastLabel(s);
    var l' := if l.Some? then Some(Up(l.value, k)) else None;
    forall j | 0 <= j < |s'| && (l'.None? || l'.value < j) ensures !s'[j].kind.Label? {
      if j > k { assert s'[Up(j - 1, k)] == s[j - 1]; }
      else if j < k { assert s'[Up(j, k)] == s[j]; }
    }
    if l.Some? { assert s'[Up(l.value, k)] == s[l.value]; }
    LastLabelIs(s', l');
  }

  /** Position in t + [a] + u of position j of t + u, where k == |t|. */
  function Up(j: nat, k: nat): nat {
    if j < k then j else j + 1
  }
}
