// Definitions and the canonical digest of a set of them (sdk.go). SHA-256 and the JSON
// encoding are taken as collision free: a digest is the symbol of what was hashed.
module Digest {
  import opened Text
  import opened Sequences
  import opened WorkingIntervals

  datatype Result<+T, +E> = Ok(value: T) | Err(error: E)

  // A digest as text: computed here from its preimage, or any text from elsewhere.
  datatype Sha256<T> = Sha256(preimage: T) | Hex(text: string)

  predicate IsHexDigit(c: char) {
    '0' <= c <= '9' || 'a' <= c <= 'f'
  }

  // validSHA256
  predicate ValidSha256<T>(h: Sha256<T>) {
    h.Sha256? || (|h.text| == 64 && forall i :: 0 <= i < 64 ==> IsHexDigit(h.text[i]))
  }

  // payload holds the wire form of the fields that neither validation nor normalisation reads.
  datatype Target = Target(
    kind: string, owner: string, operation: string, objectKey: string, runAsRole: string,
    connectionKey: string, payload: string)

  // A list on the wire: none and an empty one are encoded differently.
  datatype List<+T> = Nil | Elements(items: seq<T>) {
    function Items(): seq<T> {
      if Nil? then [] else items
    }
  }

  datatype WireWeekday = WireWeekday(weekday: string, intervals: List<TimeInterval>)

  datatype WireException = WireException(date: string, intervals: List<TimeInterval>)

  datatype WireCalendar = WireCalendar(
    key: string, revision: string, timezone: string,
    weekly: List<WireWeekday>, holidays: List<string>, exceptions: List<WireException>)

  datatype Definition = Definition(
    key: string, revision: string, scheduleType: string, calendar: Option<WireCalendar>,
    target: Target, payload: string)

  datatype Fault = InvalidDefinition | RepeatedKey(key: string)

  const RUNTIME_OPERATION := "runtime_operation"

  predicate ValidTarget(t: Target) {
    var kind := if Blank(t.kind) then RUNTIME_OPERATION else TrimSpace(t.kind);
    !Blank(t.operation) &&
    if kind == RUNTIME_OPERATION then
      !Blank(t.owner) && (TrimSpace(t.owner) == "business_action" ==> !Blank(t.objectKey) && !Blank(t.runAsRole))
    else kind == "http" && !Blank(t.connectionKey)
  }

  predicate ValidDefinition(d: Definition) {
    !Blank(d.key) && !Blank(d.revision) && !Blank(d.scheduleType) && ValidTarget(d.target)
  }

  // Which targets are valid: a runtime operation, which is what no kind means, has an owner, and
  // a business action's also an object and a role; an HTTP call has a connection; both have an
  // operation. White space around kind and owner does not matter.
  lemma ValidTargetExactly(t: Target)
    ensures ValidTarget(t) <==>
              TrimSpace(t.operation) != "" &&
              ((TrimSpace(t.kind) in {"", "runtime_operation"} && TrimSpace(t.owner) !in {"", "business_action"}) ||
               (TrimSpace(t.kind) in {"", "runtime_operation"} && TrimSpace(t.owner) == "business_action" &&
                TrimSpace(t.objectKey) != "" && TrimSpace(t.runAsRole) != "") ||
               (TrimSpace(t.kind) == "http" && TrimSpace(t.connectionKey) != ""))
  {
    hide TrimSpace;
  }

  // What validation decides, field by field, from any valid definition.
  lemma DefinitionFields(d: Definition, text: string, target: Target)
    requires ValidDefinition(d)
    ensures ValidDefinition(d.(key := text)) <==> TrimSpace(text) != ""
    ensures ValidDefinition(d.(revision := text)) <==> TrimSpace(text) != ""
    ensures ValidDefinition(d.(scheduleType := text)) <==> TrimSpace(text) != ""
    ensures ValidDefinition(d.(target := target)) <==> ValidTarget(target)
  {
    hide TrimSpace, ValidTarget;
  }

  // A digest given as text has 64 lower-case hexadecimal digits.
  lemma DigestTextExactly<T>(text: string)
    ensures ValidSha256<T>(Hex(text)) <==> |text| == 64 && forall c :: c in text ==> c in "0123456789abcdef"
  {
    forall c ensures IsHexDigit(c) <==> c in "0123456789abcdef" {
      HexDigitExactly(c);
    }
    hide IsHexDigit;
    assert forall i :: 0 <= i < |text| ==> text[i] in text;
  }

  lemma HexDigitExactly(c: char)
    ensures IsHexDigit(c) <==> c in "0123456789abcdef"
  {
    if IsHexDigit(c) {
      var k := if c <= '9' then c as int - '0' as int else c as int - 'a' as int + 10;
      assert "0123456789abcdef"[k] == c;
    }
  }

  // Copying a list makes an empty one none.
  function Copied<T>(list: List<T>): List<T> {
    if list.Items() == [] then Nil else list
  }

  function NormalizeCalendar(c: WireCalendar): WireCalendar {
    var weekly, exceptions := c.weekly.Items(), c.exceptions.Items();
    c.(holidays := Copied(c.holidays),
       weekly := Copied(Elements(seq(|weekly|, i requires 0 <= i < |weekly| =>
                   weekly[i].(intervals := Copied(weekly[i].intervals))))),
       exceptions := Copied(Elements(seq(|exceptions|, i requires 0 <= i < |exceptions| =>
                       exceptions[i].(intervals := Copied(exceptions[i].intervals))))))
  }

  function Normalize(d: Definition): Definition {
    d.(target := if Blank(d.target.kind) then d.target.(kind := RUNTIME_OPERATION) else d.target,
       calendar := if d.calendar.None? then None else Some(NormalizeCalendar(d.calendar.value)))
  }

  // What a calendar says, whichever way its empty lists are written.
  ghost predicate SameCalendar(a: WireCalendar, b: WireCalendar) {
    a.key == b.key && a.revision == b.revision && a.timezone == b.timezone &&
    a.holidays.Items() == b.holidays.Items() &&
    SameWeekly(a.weekly.Items(), b.weekly.Items()) && SameExceptions(a.exceptions.Items(), b.exceptions.Items())
  }

  ghost predicate SameWeekly(a: seq<WireWeekday>, b: seq<WireWeekday>) {
    |a| == |b| &&
    forall i :: 0 <= i < |a| ==> a[i].weekday == b[i].weekday && a[i].intervals.Items() == b[i].intervals.Items()
  }

  ghost predicate SameExceptions(a: seq<WireException>, b: seq<WireException>) {
    |a| == |b| &&
    forall i :: 0 <= i < |a| ==> a[i].date == b[i].date && a[i].intervals.Items() == b[i].intervals.Items()
  }

  lemma CopiedExactly<T>(a: List<T>, b: List<T>)
    ensures Copied(a) == Copied(b) <==> a.Items() == b.Items()
    ensures Copied(a).Items() == a.Items()
  {
  }

  // Normalising keeps what a calendar says and forgets how its empty lists were written.
  lemma NormalizedCalendarsAgree(a: WireCalendar, b: WireCalendar)
    ensures NormalizeCalendar(a) == NormalizeCalendar(b) <==> SameCalendar(a, b)
    ensures SameCalendar(NormalizeCalendar(a), a)
  {
    hide Copied;
    CopiedExactly(a.holidays, b.holidays);
    CopiedExactly(NormalizeCalendar(a).holidays, a.holidays);
    var x, y := NormalizeCalendar(a), NormalizeCalendar(b);
    WeeklyCopied(a, b);
    ExceptionsCopied(a, b);
  }

  lemma WeeklyCopied(a: WireCalendar, b: WireCalendar)
    ensures NormalizeCalendar(a).weekly == NormalizeCalendar(b).weekly <==>
            SameWeekly(a.weekly.Items(), b.weekly.Items())
    ensures SameWeekly(NormalizeCalendar(a).weekly.Items(), a.weekly.Items())
  {
    var x, y := NormalizeCalendar(a).weekly.Items(), NormalizeCalendar(b).weekly.Items();
    forall i | 0 <= i < |a.weekly.Items()| && i < |b.weekly.Items()|
      ensures x[i] == y[i] <==>
              a.weekly.Items()[i].weekday == b.weekly.Items()[i].weekday &&
              a.weekly.Items()[i].intervals.Items() == b.weekly.Items()[i].intervals.Items()
    {
      CopiedExactly(a.weekly.Items()[i].intervals, b.weekly.Items()[i].intervals);
    }
  }

  lemma ExceptionsCopied(a: WireCalendar, b: WireCalendar)
    ensures NormalizeCalendar(a).exceptions == NormalizeCalendar(b).exceptions <==>
            SameExceptions(a.exceptions.Items(), b.exceptions.Items())
    ensures SameExceptions(NormalizeCalendar(a).exceptions.Items(), a.exceptions.Items())
  {
    var x, y := NormalizeCalendar(a).exceptions.Items(), NormalizeCalendar(b).exceptions.Items();
    forall i | 0 <= i < |a.exceptions.Items()| && i < |b.exceptions.Items()|
      ensures x[i] == y[i] <==>
              a.exceptions.Items()[i].date == b.exceptions.Items()[i].date &&
              a.exceptions.Items()[i].intervals.Items() == b.exceptions.Items()[i].intervals.Items()
    {
      CopiedExactly(a.exceptions.Items()[i].intervals, b.exceptions.Items()[i].intervals);
    }
  }

  lemma NormalizeIsIdempotent(d: Definition)
    ensures Normalize(Normalize(d)) == Normalize(d)
    ensures ValidDefinition(Normalize(d)) <==> ValidDefinition(d)
  {
    hide TrimSpace, NormalizeCalendar, SameCalendar;
    TrimmedIsFixed(RUNTIME_OPERATION);
    if d.calendar.Some? {
      NormalizedCalendarsAgree(d.calendar.value, d.calendar.value);
      NormalizedCalendarsAgree(NormalizeCalendar(d.calendar.value), d.calendar.value);
    }
  }

  function Normalized(defs: seq<Definition>): (r: seq<Definition>)
    ensures |r| == |defs|
    ensures forall i :: 0 <= i < |r| ==> r[i] == Normalize(defs[i])
  {
    if defs == [] then [] else Normalized(defs[..|defs| - 1]) + [Normalize(defs[|defs| - 1])]
  }

  // ---------- acceptance ----------

  function KeyAt(defs: seq<Definition>, i: int): string
    requires 0 <= i < |defs|
  {
    TrimSpace(defs[i].key)
  }

  ghost predicate DistinctKeys(defs: seq<Definition>) {
    forall i, j :: 0 <= i < j < |defs| ==> KeyAt(defs, i) != KeyAt(defs, j)
  }

  ghost predicate AllValid(defs: seq<Definition>) {
    forall i :: 0 <= i < |defs| ==> ValidDefinition(Normalize(defs[i]))
  }

  ghost predicate Accepted(defs: seq<Definition>) {
    AllValid(defs) && DistinctKeys(defs)
  }

  // ---------- sorting by key ----------

  // Keys are compared as written, though their uniqueness is judged on the trimmed text.
  ghost predicate SortedByKey(s: seq<Definition>) {
    forall i, j :: 0 <= i < j < |s| ==> !Less(s[j].key, s[i].key)
  }

  function Insert(s: seq<Definition>, d: Definition): seq<Definition> {
    if s == [] || !Less(d.key, s[|s| - 1].key) then s + [d]
    else Insert(s[..|s| - 1], d) + [s[|s| - 1]]
  }

  // The definitions in key order.
  function Sorted(s: seq<Definition>): seq<Definition> {
    if s == [] then [] else Insert(Sorted(s[..|s| - 1]), s[|s| - 1])
  }

  lemma {:induction false} InsertSorts(s: seq<Definition>, d: Definition)
    requires SortedByKey(s)
    ensures SortedByKey(Insert(s, d)) && multiset(Insert(s, d)) == multiset(s) + multiset{d}
    decreases |s|
  {
    hide Less;
    if s != [] {
      var last := s[|s| - 1];
      WithoutLast(s);
      if Less(d.key, last.key) {
        var front := Insert(s[..|s| - 1], d);
        InsertSorts(s[..|s| - 1], d);
        NotAboveLast(s, d, front);
      } else {
        AppendSorts(s, d);
      }
    }
  }

  lemma NotAboveLast(s: seq<Definition>, d: Definition, front: seq<Definition>)
    requires s != [] && SortedByKey(s) && Less(d.key, s[|s| - 1].key)
    requires multiset(front) == multiset(s[..|s| - 1]) + multiset{d}
    ensures forall i :: 0 <= i < |front| ==> !Less(s[|s| - 1].key, front[i].key)
  {
    hide Less;
    LessTrichotomy(d.key, s[|s| - 1].key);
    forall i | 0 <= i < |front| ensures !Less(s[|s| - 1].key, front[i].key) {
      assert front[i] in multiset(front);
      assert front[i] in multiset(s[..|s| - 1]) + multiset{d};
    }
  }

  lemma AppendSorts(s: seq<Definition>, d: Definition)
    requires s != [] && SortedByKey(s) && !Less(d.key, s[|s| - 1].key)
    ensures SortedByKey(s + [d])
  {
    hide Less;
    forall i | 0 <= i < |s| ensures !Less(d.key, s[i].key) {
      if Less(d.key, s[i].key) {
        NotBelowLast(d.key, s[i].key, s[|s| - 1].key);
      }
    }
  }

  lemma NotBelowLast(a: string, b: string, c: string)
    requires Less(a, b) && !Less(a, c)
    ensures Less(c, b)
  {
    LessTrichotomy(a, c);
    if Less(c, a) { LessTransitive(c, a, b); }
  }

  lemma {:induction false} SortedSorts(s: seq<Definition>)
    ensures SortedByKey(Sorted(s)) && multiset(Sorted(s)) == multiset(s)
    decreases |s|
  {
    hide Less, Insert;
    if s != [] {
      SortedSorts(s[..|s| - 1]);
      InsertSorts(Sorted(s[..|s| - 1]), s[|s| - 1]);
      assert s == s[..|s| - 1] + [s[|s| - 1]];
    }
  }

  lemma SameLast(a: seq<Definition>, b: seq<Definition>)
    requires a != [] && SortedByKey(a) && SortedByKey(b) && multiset(a) == multiset(b)
    requires forall i, j :: 0 <= i < j < |a| ==> a[i].key != a[j].key
    ensures b != [] && a[|a| - 1] == b[|b| - 1]
  {
    hide Less;
    assert |multiset(b)| == |a|;
    var x, y := a[|a| - 1], b[|b| - 1];
    assert x in multiset(b) && y in multiset(a);
    var i :| 0 <= i < |a| && a[i] == y;
    var j :| 0 <= j < |b| && b[j] == x;
    LessTrichotomy(x.key, y.key);
  }

  // With distinct keys there is only one sorted order, so an unstable sort cannot matter.
  lemma {:induction false} SortedOrderIsUnique(a: seq<Definition>, b: seq<Definition>)
    requires SortedByKey(a) && SortedByKey(b) && multiset(a) == multiset(b)
    requires forall i, j :: 0 <= i < j < |a| ==> a[i].key != a[j].key
    ensures a == b
    decreases |a|
  {
    hide Less;
    if a == [] {
      assert |multiset(b)| == 0;
    } else {
      SameLast(a, b);
      WithoutLast(a);
      WithoutLast(b);
      SortedOrderIsUnique(a[..|a| - 1], b[..|b| - 1]);
    }
  }

  // ---------- the digest ----------

  // The first definition that is invalid or repeats an earlier key, if any.
  function FirstFault(defs: seq<Definition>): Option<Fault> {
    if defs == [] then None
    else
      var front := FirstFault(defs[..|defs| - 1]);
      var last := |defs| - 1;
      if front.Some? then front
      else if !ValidDefinition(Normalize(defs[last])) then Some(InvalidDefinition)
      else if exists i :: 0 <= i < last && KeyAt(defs, i) == KeyAt(defs, last) then Some(RepeatedKey(KeyAt(defs, last)))
      else None
  }

  function ContentDigest(defs: seq<Definition>): Result<Sha256<seq<Definition>>, Fault> {
    match FirstFault(defs)
    case Some(fault) => Err(fault)
    case None => Ok(Sha256(Sorted(Normalized(defs))))
  }

  // sort.Slice: some permutation in key order.
  method SortDefinitions(defs: seq<Definition>) returns (r: seq<Definition>)
    ensures SortedByKey(r) && multiset(r) == multiset(defs)
  {
    hide Less;
    r := [];
    for n := 0 to |defs|
      invariant SortedByKey(r) && multiset(r) == multiset(defs[..n])
    {
      InsertSorts(r, defs[n]);
      assert defs[..n + 1] == defs[..n] + [defs[n]];
      r := Insert(r, defs[n]);
    }
    assert defs[..|defs|] == defs;
  }

  // DefinitionSnapshotContentSHA256
  method DefinitionSnapshotContentSHA256(defs: seq<Definition>) returns (r: Result<Sha256<seq<Definition>>, Fault>)
    ensures r == ContentDigest(defs)
  {
    hide ValidDefinition, Normalize, TrimSpace, SortedByKey;
    var canonical := defs;
    var seen: set<string> := {};
    for n := 0 to |defs|
      invariant |canonical| == |defs|
      invariant canonical[..n] == Normalized(defs[..n]) && canonical[n..] == defs[n..]
      invariant seen == KeysBefore(defs, n)
      invariant FirstFault(defs[..n]) == None
    {
      FaultStep(defs, n);
      var normal := Normalize(canonical[n]);
      canonical := canonical[n := normal];
      if !ValidDefinition(normal) {
        FaultStays(defs, n + 1);
        return Err(InvalidDefinition);
      }
      var key := TrimSpace(normal.key);
      NormalizeKeepsKey(defs[n]);
      if key in seen {
        FaultStays(defs, n + 1);
        return Err(RepeatedKey(key));
      }
      KeysBeforeStep(defs, n);
      seen := seen + {key};
    }
    assert defs[..|defs|] == defs && canonical[..|defs|] == canonical;
    var sorted := SortDefinitions(canonical);
    AcceptedExactly(defs);
    SortedSorts(canonical);
    DistinctAsWritten(defs, Sorted(canonical));
    SortedOrderIsUnique(Sorted(canonical), sorted);
    return Ok(Sha256(sorted));
  }

  ghost function KeysBefore(defs: seq<Definition>, n: int): set<string>
    requires n <= |defs|
  {
    set i | 0 <= i < n :: KeyAt(defs, i)
  }

  lemma KeysBeforeStep(defs: seq<Definition>, n: nat)
    requires n < |defs|
    ensures KeysBefore(defs, n + 1) == KeysBefore(defs, n) + {KeyAt(defs, n)}
  {
    hide KeyAt;
    forall k | k in KeysBefore(defs, n) + {KeyAt(defs, n)} ensures k in KeysBefore(defs, n + 1) {
      if k != KeyAt(defs, n) {
        var i :| 0 <= i < n && KeyAt(defs, i) == k;
      }
    }
  }

  lemma NormalizeKeepsKey(d: Definition)
    ensures Normalize(d).key == d.key
  {
  }

  lemma FaultStep(defs: seq<Definition>, n: nat)
    requires n < |defs| && FirstFault(defs[..n]) == None
    ensures FirstFault(defs[..n + 1]) ==
            if !ValidDefinition(Normalize(defs[n])) then Some(InvalidDefinition)
            else if exists i :: 0 <= i < n && KeyAt(defs, i) == KeyAt(defs, n) then Some(RepeatedKey(KeyAt(defs, n)))
            else None
    ensures Normalized(defs[..n + 1]) == Normalized(defs[..n]) + [Normalize(defs[n])]
  {
    hide ValidDefinition, Normalize, TrimSpace;
    var s := defs[..n + 1];
    assert s[..|s| - 1] == defs[..n] && s[n] == defs[n];
    assert forall i :: 0 <= i <= n ==> KeyAt(s, i) == KeyAt(defs, i);
  }

  lemma {:induction false} FaultStays(defs: seq<Definition>, n: nat)
    requires n <= |defs| && FirstFault(defs[..n]).Some?
    ensures FirstFault(defs) == FirstFault(defs[..n])
    decreases |defs| - n
  {
    hide ValidDefinition, Normalize, KeyAt;
    if n == |defs| {
      assert defs[..n] == defs;
    } else {
      assert defs[..n + 1][..n] == defs[..n];
      FaultStays(defs, n + 1);
    }
  }

  // A digest is given exactly for definitions that are all valid with distinct trimmed keys.
  lemma {:induction false} AcceptedExactly(defs: seq<Definition>)
    ensures ContentDigest(defs).Ok? <==> Accepted(defs)
    decreases |defs|
  {
    hide ValidDefinition, Normalize, KeyAt, Accepted;
    if defs == [] {
      NoneAccepted();
    } else {
      AcceptedExactly(defs[..|defs| - 1]);
      AcceptedStep(defs);
    }
  }

  // Which fault is reported: after acceptable definitions, that of the next one, invalid before
  // repeated, whatever follows.
  lemma FaultReported(front: seq<Definition>, d: Definition, rest: seq<Definition>)
    requires Accepted(front)
    ensures !ValidDefinition(d) ==> ContentDigest(front + [d] + rest) == Err(InvalidDefinition)
    ensures ValidDefinition(d) && (exists f :: f in front && TrimSpace(f.key) == TrimSpace(d.key)) ==>
              ContentDigest(front + [d] + rest) == Err(RepeatedKey(TrimSpace(d.key)))
  {
    hide ValidDefinition, Normalize, TrimSpace, Accepted, Sorted, Normalized;
    var all, n := front + [d] + rest, |front|;
    AcceptedExactly(front);
    NormalizeIsIdempotent(d);
    assert all[..n] == front && all[n] == d;
    FaultStep(all, n);
    if FirstFault(all[..n + 1]).Some? {
      FaultStays(all, n + 1);
    }
    if f :| f in front && TrimSpace(f.key) == TrimSpace(d.key) {
      var i :| 0 <= i < n && front[i] == f;
      assert KeyAt(all, i) == KeyAt(all, n);
    }
  }

  lemma NoneAccepted()
    ensures Accepted([])
  {
  }

  lemma AcceptedStep(defs: seq<Definition>)
    requires defs != []
    ensures var front, last := defs[..|defs| - 1], |defs| - 1;
            Accepted(defs) <==>
              Accepted(front) && ValidDefinition(Normalize(defs[last])) &&
              !exists i :: 0 <= i < last && KeyAt(defs, i) == KeyAt(defs, last)
  {
    hide ValidDefinition, Normalize, TrimSpace;
    var front, last := defs[..|defs| - 1], |defs| - 1;
    assert forall i :: 0 <= i < last ==> KeyAt(front, i) == KeyAt(defs, i);
    assert forall i :: 0 <= i < last ==> front[i] == defs[i];
    if Accepted(front) && ValidDefinition(Normalize(defs[last])) {
      forall i | 0 <= i < |defs| ensures ValidDefinition(Normalize(defs[i])) {
        if i < last { assert front[i] == defs[i]; }
      }
    }
  }

  // Two places with one trimmed key survive reordering.
  lemma SharedKeyMoves(a: seq<Definition>, b: seq<Definition>, i: int, j: int) returns (p: int, q: int)
    requires multiset(a) == multiset(b) && 0 <= i < j < |b| && KeyAt(b, i) == KeyAt(b, j)
    ensures 0 <= p < q < |a| && KeyAt(a, p) == KeyAt(a, q)
  {
    hide TrimSpace;
    var x, y := b[i], b[j];
    assert x in multiset(a) && y in multiset(a);
    if x == y {
      TwicePresent(b, i, j);
      p, q := TwoPlaces(a, x);
    } else {
      p :| 0 <= p < |a| && a[p] == x;
      q :| 0 <= q < |a| && a[q] == y;
      if q < p { p, q := q, p; }
    }
  }

  lemma DistinctAsWritten(defs: seq<Definition>, sorted: seq<Definition>)
    requires DistinctKeys(defs) && multiset(sorted) == multiset(Normalized(defs))
    ensures forall i, j :: 0 <= i < j < |sorted| ==> sorted[i].key != sorted[j].key
  {
    hide Normalize, TrimSpace, DistinctKeys;
    forall i, j | 0 <= i < j < |sorted| ensures sorted[i].key != sorted[j].key {
      if sorted[i].key == sorted[j].key {
        var p, q := SharedKeyMoves(Normalized(defs), sorted, i, j);
        NormalizeKeepsKey(defs[p]);
        NormalizeKeepsKey(defs[q]);
        assert KeyAt(defs, p) == KeyAt(defs, q);
        NotDistinct(defs, p, q);
      }
    }
  }

  lemma NotDistinct(defs: seq<Definition>, p: int, q: int)
    requires 0 <= p < q < |defs| && KeyAt(defs, p) == KeyAt(defs, q)
    ensures !DistinctKeys(defs)
  {
  }

  // ---------- what the digest identifies ----------

  lemma {:induction false} NormalizedConcat(a: seq<Definition>, b: seq<Definition>)
    ensures Normalized(a + b) == Normalized(a) + Normalized(b)
  {
    hide Normalize;
  }

  // Normalising commutes with reordering.
  lemma {:induction false} NormalizedPermutes(a: seq<Definition>, b: seq<Definition>)
    requires multiset(a) == multiset(b)
    ensures multiset(Normalized(a)) == multiset(Normalized(b))
    decreases |a|
  {
    hide Normalize;
    if a == [] {
      assert |multiset(b)| == 0;
    } else {
      var x := a[|a| - 1];
      var front := a[..|a| - 1];
      WithoutLast(a);
      assert x in multiset(b);
      var i :| 0 <= i < |b| && b[i] == x;
      var rest := b[..i] + b[i + 1..];
      Without(b, i);
      NormalizedPermutes(front, rest);
      NormalizedConcat(front, [x]);
      NormalizedAround(b[..i], x, b[i + 1..]);
    }
  }

  lemma NormalizedAround(a: seq<Definition>, x: Definition, b: seq<Definition>)
    ensures multiset(Normalized(a + [x] + b)) == multiset(Normalized(a + b)) + multiset{Normalize(x)}
  {
    hide Normalize;
    NormalizedConcat(a, b);
    NormalizedConcat(a + [x], b);
    NormalizedConcat(a, [x]);
    assert Normalized([x]) == [Normalize(x)];
  }

  lemma AcceptedPermutes(a: seq<Definition>, b: seq<Definition>)
    requires multiset(a) == multiset(b) && Accepted(a)
    ensures Accepted(b)
  {
    hide ValidDefinition, Normalize, TrimSpace;
    forall i | 0 <= i < |b| ensures ValidDefinition(Normalize(b[i])) {
      assert b[i] in multiset(a);
    }
    forall i, j | 0 <= i < j < |b| ensures KeyAt(b, i) != KeyAt(b, j) {
      if KeyAt(b, i) == KeyAt(b, j) {
        var p, q := SharedKeyMoves(a, b, i, j);
        NotDistinct(a, p, q);
      }
    }
  }

  // The order of transport does not matter: a permutation is accepted as well, with the same digest.
  lemma DigestIgnoresOrder(a: seq<Definition>, b: seq<Definition>)
    requires multiset(a) == multiset(b) && ContentDigest(a).Ok?
    ensures ContentDigest(b) == ContentDigest(a)
  {
    hide ValidDefinition, Normalize, TrimSpace, Sorted;
    AcceptedExactly(a);
    AcceptedExactly(b);
    AcceptedPermutes(a, b);
    NormalizedPermutes(a, b);
    SortedSorts(Normalized(a));
    SortedSorts(Normalized(b));
    DistinctAsWritten(a, Sorted(Normalized(a)));
    SortedOrderIsUnique(Sorted(Normalized(a)), Sorted(Normalized(b)));
  }

  // Two accepted sets have equal digests exactly when they hold the same normalised definitions.
  lemma DigestIdentifiesContent(a: seq<Definition>, b: seq<Definition>)
    requires ContentDigest(a).Ok? && ContentDigest(b).Ok?
    ensures ContentDigest(a) == ContentDigest(b) <==> multiset(Normalized(a)) == multiset(Normalized(b))
  {
    hide ValidDefinition, Normalize, TrimSpace, Sorted;
    AcceptedExactly(a);
    SortedSorts(Normalized(a));
    SortedSorts(Normalized(b));
    DistinctAsWritten(a, Sorted(Normalized(a)));
    if multiset(Normalized(a)) == multiset(Normalized(b)) {
      SortedOrderIsUnique(Sorted(Normalized(a)), Sorted(Normalized(b)));
    }
  }
}
