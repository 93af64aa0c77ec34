/** Multipart uploads: recording parts under the upload's lock, and completing an
    upload from the parts recorded. */
module Multipart {
  import opened ByteOrder

  datatype PartInfo = PartInfo(partNumber: int, etag: Bytes, size: nat, blobId: Bytes)

  datatype CompletePart = CompletePart(partNumber: int, etag: Bytes)

  datatype Error =
    | ListedTwice(partNumber: int)
    | NoParts
    | NotUploaded(partNumber: int)
    | EtagMismatch(partNumber: int)
    | TooSmall(partNumber: int)

  datatype Result<T> = Ok(value: T) | Err(error: Error)

  const MIN_PART_SIZE := 5 * 1024 * 1024

  // ------------------------------------------------------------ recording a part

  function Find(parts: seq<PartInfo>, number: int): Option<PartInfo> {
    if parts == [] then None else if parts[0].partNumber == number then Some(parts[0]) else Find(parts[1..], number)
  }

  predicate DistinctNumbers(parts: seq<PartInfo>) {
    forall i, j :: 0 <= i < j < |parts| ==> parts[i].partNumber != parts[j].partNumber
  }

  /** The record with a part put in, in place of an earlier upload of its number. */
  function Recorded(parts: seq<PartInfo>, info: PartInfo): seq<PartInfo> {
    if parts == [] then
      [info]
    else if parts[0].partNumber == info.partNumber then
      [info] + parts[1..]
    else
      [parts[0]] + Recorded(parts[1..], info)
  }

  lemma {:induction false} FindIn(parts: seq<PartInfo>, number: int)
    requires DistinctNumbers(parts)
    ensures forall i :: 0 <= i < |parts| && parts[i].partNumber == number ==> Find(parts, number) == Some(parts[i])
    ensures Find(parts, number).Some? ==> Find(parts, number).value in parts && Find(parts, number).value.partNumber == number
  {
    if parts != [] {
      FindIn(parts[1..], number);
    }
  }

  /** Recording a part changes what is recorded under its number, and nothing else. */
  lemma {:induction false} RecordedFinds(parts: seq<PartInfo>, info: PartInfo, number: int)
    ensures Find(Recorded(parts, info), number) == if number == info.partNumber then Some(info) else Find(parts, number)
  {
    if parts != [] {
      if parts[0].partNumber == info.partNumber {
        assert ([info] + parts[1..])[1..] == parts[1..];
      } else {
        RecordedFinds(parts[1..], info, number);
      }
    }
  }

  lemma {:induction false} RecordedKeepsDistinct(parts: seq<PartInfo>, info: PartInfo)
    requires DistinctNumbers(parts)
    ensures DistinctNumbers(Recorded(parts, info))
    ensures forall p :: p in Recorded(parts, info) ==> p == info || (p in parts && p.partNumber != info.partNumber)
  {
    if parts != [] && parts[0].partNumber != info.partNumber {
      RecordedKeepsDistinct(parts[1..], info);
      var rest := Recorded(parts[1..], info);
      forall j | 0 <= j < |rest|
        ensures rest[j].partNumber != parts[0].partNumber
      {
        assert rest[j] in rest;
        if rest[j] in parts[1..] {
          var k :| 0 <= k < |parts[1..]| && parts[1..][k] == rest[j];
        }
      }
    } else if parts != [] {
      forall j | 1 <= j < |parts|
        ensures parts[j].partNumber != info.partNumber
      {
      }
    }
  }

  method RecordPart(parts: seq<PartInfo>, info: PartInfo) returns (updated: seq<PartInfo>, previous: Option<PartInfo>)
    ensures updated == Recorded(parts, info) && previous == Find(parts, info.partNumber)
  {
    updated, previous := parts, None;
    var found, i := false, 0;
    while i < |parts| && !found
      invariant 0 <= i <= |parts|
      invariant if found then updated == Recorded(parts, info) && previous == Find(parts, info.partNumber)
                else updated == parts && previous == None
      invariant !found ==> Recorded(parts, info) == parts[..i] + Recorded(parts[i..], info)
                           && Find(parts, info.partNumber) == Find(parts[i..], info.partNumber)
      decreases |parts| - i, !found
    {
      if parts[i].partNumber == info.partNumber {
        previous, updated, found := Some(parts[i]), parts[i := info], true;
        assert parts[i..][1..] == parts[i + 1..];
        assert parts[..i] + ([info] + parts[i + 1..]) == parts[i := info];
      } else {
        assert parts[i..][1..] == parts[i + 1..];
        assert parts[..i + 1] == parts[..i] + [parts[i]];
        Concat(parts[..i], [parts[i]], Recorded(parts[i + 1..], info));
        i := i + 1;
      }
    }
    if !found {
      assert parts[..i] == parts && parts[i..] == [];
      updated := updated + [info];
    }
  }

  // ----------------------------------------------------------- the parts listed

  function InsertByNumber(p: CompletePart, s: seq<CompletePart>): (r: seq<CompletePart>)
    ensures multiset(r) == multiset(s) + multiset{p}
  {
    if s != [] && s[0].partNumber < p.partNumber then
      assert s == [s[0]] + s[1..];
      [s[0]] + InsertByNumber(p, s[1..])
    else
      [p] + s
  }

  function SortByNumber(s: seq<CompletePart>): (r: seq<CompletePart>)
    ensures multiset(r) == multiset(s)
  {
    if s == [] then
      []
    else
      assert s == [s[0]] + s[1..];
      InsertByNumber(s[0], SortByNumber(s[1..]))
  }

  predicate Ascending(s: seq<CompletePart>) {
    forall i, j :: 0 <= i < j < |s| ==> s[i].partNumber <= s[j].partNumber
  }

  predicate StrictlyAscending(s: seq<CompletePart>) {
    forall i, j :: 0 <= i < j < |s| ==> s[i].partNumber < s[j].partNumber
  }

  lemma {:induction false} InsertKeepsOrder(p: CompletePart, s: seq<CompletePart>)
    requires Ascending(s)
    ensures Ascending(InsertByNumber(p, s))
  {
    if s != [] && s[0].partNumber < p.partNumber {
      InsertKeepsOrder(p, s[1..]);
      var r := InsertByNumber(p, s[1..]);
      forall j | 0 <= j < |r|
        ensures s[0].partNumber <= r[j].partNumber
      {
        assert r[j] in multiset(r);
        assert r[j] == p || r[j] in s[1..];
      }
    }
  }

  lemma {:induction false} SortedByNumber(s: seq<CompletePart>)
    ensures Ascending(SortByNumber(s))
  {
    if s != [] {
      SortedByNumber(s[1..]);
      InsertKeepsOrder(s[0], SortByNumber(s[1..]));
    }
  }

  function TrimQuotes(s: Bytes): Bytes {
    TrimQuotesRight(TrimQuotesLeft(s))
  }

  function TrimQuotesLeft(s: Bytes): Bytes {
    if s != [] && s[0] == '"' then TrimQuotesLeft(s[1..]) else s
  }

  function TrimQuotesRight(s: Bytes): Bytes {
    if s != [] && s[|s| - 1] == '"' then TrimQuotesRight(s[..|s| - 1]) else s
  }

  function Quotes(n: nat): (q: Bytes)
    ensures |q| == n && forall i :: 0 <= i < n ==> q[i] == '"'
  {
    seq(n, _ => '"')
  }

  /** Only quotes are taken off, and none are left at either end. */
  lemma OnlyQuotesGo(s: Bytes) returns (before: nat, after: nat)
    ensures s == Quotes(before) + TrimQuotes(s) + Quotes(after)
    ensures TrimQuotes(s) != "" ==> TrimQuotes(s)[0] != '"' && TrimQuotes(s)[|TrimQuotes(s)| - 1] != '"'
  {
    before := QuotesBefore(s);
    var rest := TrimQuotesLeft(s);
    after := QuotesAfter(rest);
    Concat(Quotes(before), TrimQuotes(s), Quotes(after));
    assert TrimQuotes(s) != "" ==> TrimQuotes(s)[0] == rest[0];
  }

  lemma {:induction false} QuotesBefore(s: Bytes) returns (n: nat)
    ensures s == Quotes(n) + TrimQuotesLeft(s) && (TrimQuotesLeft(s) != "" ==> TrimQuotesLeft(s)[0] != '"')
    decreases |s|
  {
    n := 0;
    if s != [] && s[0] == '"' {
      n := QuotesBefore(s[1..]);
      n := n + 1;
      assert s == [s[0]] + s[1..];
    }
  }

  lemma {:induction false} QuotesAfter(s: Bytes) returns (n: nat)
    ensures s == TrimQuotesRight(s) + Quotes(n)
    ensures TrimQuotesRight(s) != "" ==> TrimQuotesRight(s)[|TrimQuotesRight(s)| - 1] != '"'
    decreases |s|
  {
    n := 0;
    if s != [] && s[|s| - 1] == '"' {
      n := QuotesAfter(s[..|s| - 1]);
      n := n + 1;
      assert s == s[..|s| - 1] + ['"'];
    }
  }

  /** The first number listed more than once, of parts in order. */
  function Repeated(parts: seq<CompletePart>, i: nat): (r: Option<int>)
    requires 1 <= i
    decreases |parts| - i
  {
    if i >= |parts| then
      None
    else if parts[i].partNumber == parts[i - 1].partNumber then
      Some(parts[i].partNumber)
    else
      Repeated(parts, i + 1)
  }

  /** What is wrong with the first part that cannot be used, from the `i`th on. */
  function Unusable(parts: seq<CompletePart>, uploaded: seq<PartInfo>, minSize: nat, i: nat): Option<Error>
    decreases |parts| - i
  {
    if i >= |parts| then
      None
    else
      match Find(uploaded, parts[i].partNumber)
      case None => Some(NotUploaded(parts[i].partNumber))
      case Some(p) =>
        if TrimQuotes(p.etag) != TrimQuotes(parts[i].etag) then
          Some(EtagMismatch(parts[i].partNumber))
        else if i < |parts| - 1 && p.size < minSize then
          Some(TooSmall(parts[i].partNumber))
        else
          Unusable(parts, uploaded, minSize, i + 1)
  }

  predicate Usable(part: CompletePart, uploaded: seq<PartInfo>, minSize: nat) {
    var p := Find(uploaded, part.partNumber);
    p.Some? && TrimQuotes(p.value.etag) == TrimQuotes(part.etag) && p.value.size >= minSize
  }

  lemma {:induction false} RepeatedExactly(parts: seq<CompletePart>, i: nat)
    requires 1 <= i && Ascending(parts)
    ensures Repeated(parts, i).None? <==> forall k :: i <= k < |parts| ==> parts[k - 1].partNumber < parts[k].partNumber
    decreases |parts| - i
  {
    if i < |parts| {
      RepeatedExactly(parts, i + 1);
    }
  }

  lemma {:induction false} NeighboursSuffice(parts: seq<CompletePart>)
    requires forall k :: 1 <= k < |parts| ==> parts[k - 1].partNumber < parts[k].partNumber
    ensures StrictlyAscending(parts)
  {
    if |parts| > 1 {
      var init := parts[..|parts| - 1];
      NeighboursSuffice(init);
      forall i | 0 <= i < |parts| - 1
        ensures parts[i].partNumber < parts[|parts| - 1].partNumber
      {
        assert parts[i] == init[i] && parts[|parts| - 2] == init[|parts| - 2];
      }
      forall i, j | 0 <= i < j < |parts|
        ensures parts[i].partNumber < parts[j].partNumber
      {
        if j < |parts| - 1 {
          assert init[i] == parts[i] && init[j] == parts[j];
        }
      }
    }
  }

  lemma {:induction false} UnusableExactly(parts: seq<CompletePart>, uploaded: seq<PartInfo>, minSize: nat, i: nat)
    ensures Unusable(parts, uploaded, minSize, i).None? <==>
            forall k :: i <= k < |parts| ==> Usable(parts[k], uploaded, if k < |parts| - 1 then minSize else 0)
    decreases |parts| - i
  {
    if i < |parts| {
      UnusableExactly(parts, uploaded, minSize, i + 1);
      assert Usable(parts[i], uploaded, if i < |parts| - 1 then minSize else 0) <==>
             Find(uploaded, parts[i].partNumber).Some?
             && TrimQuotes(Find(uploaded, parts[i].partNumber).value.etag) == TrimQuotes(parts[i].etag)
             && (i < |parts| - 1 ==> Find(uploaded, parts[i].partNumber).value.size >= minSize);
    }
  }

  /** Whether a completion request names parts that can be put together: each once,
      each uploaded with the entity tag given, none but the last too small. */
  ghost predicate RequestOk(request: seq<CompletePart>, uploaded: seq<PartInfo>, minSize: nat) {
    var parts := SortByNumber(request);
    && parts != [] && StrictlyAscending(parts)
    && forall k :: 0 <= k < |parts| ==> Usable(parts[k], uploaded, if k < |parts| - 1 then minSize else 0)
  }

  /** The parts to put together, in ascending order of their numbers. */
  function Selected(parts: seq<CompletePart>, uploaded: seq<PartInfo>): (r: seq<PartInfo>)
    requires forall k :: 0 <= k < |parts| ==> Find(uploaded, parts[k].partNumber).Some?
    ensures |r| == |parts| && forall k :: 0 <= k < |r| ==> r[k] == Find(uploaded, parts[k].partNumber).value
  {
    seq(|parts|, k requires 0 <= k < |parts| => Find(uploaded, parts[k].partNumber).value)
  }

  /** Why a request is refused. */
  function Rejection(request: seq<CompletePart>, uploaded: seq<PartInfo>, minSize: nat): Option<Error> {
    var parts := SortByNumber(request);
    match Repeated(parts, 1)
    case Some(number) => Some(ListedTwice(number))
    case None => if parts == [] then Some(NoParts) else Unusable(parts, uploaded, minSize, 0)
  }

  lemma RefusedExactly(request: seq<CompletePart>, uploaded: seq<PartInfo>, minSize: nat)
    ensures Rejection(request, uploaded, minSize).None? <==> RequestOk(request, uploaded, minSize)
  {
    var parts := SortByNumber(request);
    SortedByNumber(request);
    RepeatedExactly(parts, 1);
    UnusableExactly(parts, uploaded, minSize, 0);
    if Repeated(parts, 1).None? {
      NeighboursSuffice(parts);
    }
  }

  method FindRepeated(parts: seq<CompletePart>) returns (r: Option<int>)
    ensures r == Repeated(parts, 1)
  {
    var i := 1;
    while i < |parts|
      invariant 1 <= i && Repeated(parts, 1) == Repeated(parts, i)
    {
      if parts[i].partNumber == parts[i - 1].partNumber {
        return Some(parts[i].partNumber);
      }
      i := i + 1;
    }
    r := None;
  }

  /** Checks each part listed against what was uploaded. */
  method CheckParts(parts: seq<CompletePart>, uploaded: seq<PartInfo>, minSize: nat) returns (error: Option<Error>)
    ensures error == Unusable(parts, uploaded, minSize, 0)
  {
    var i := 0;
    while i < |parts|
      invariant i <= |parts| && Unusable(parts, uploaded, minSize, 0) == Unusable(parts, uploaded, minSize, i)
    {
      var uPart := Find(uploaded, parts[i].partNumber);
      if uPart.None? {
        return Some(NotUploaded(parts[i].partNumber));
      }
      if TrimQuotes(uPart.value.etag) != TrimQuotes(parts[i].etag) {
        return Some(EtagMismatch(parts[i].partNumber));
      }
      if i < |parts| - 1 && uPart.value.size < minSize {
        return Some(TooSmall(parts[i].partNumber));
      }
      i := i + 1;
    }
    error := None;
  }

  /** The parts selected are uploaded parts in ascending order of their numbers, one for
      each part of the request, with its number and, quotes aside, its entity tag; all
      but the last have the minimum size, if there is one. */
  ghost predicate Selects(request: seq<CompletePart>, uploaded: seq<PartInfo>, disableMinPartSize: bool, selected: seq<PartInfo>) {
    && |selected| == |request| > 0
    && (forall i, j :: 0 <= i < j < |selected| ==> selected[i].partNumber < selected[j].partNumber)
    && (forall k :: 0 <= k < |selected| ==> selected[k] in uploaded)
    && (forall p :: p in request ==> exists k :: 0 <= k < |selected| && Matches(selected[k], p))
    && (disableMinPartSize || forall k :: 0 <= k < |selected| - 1 ==> selected[k].size >= 5 * 1024 * 1024)
  }

  predicate Matches(info: PartInfo, p: CompletePart) {
    info.partNumber == p.partNumber && TrimQuotes(info.etag) == TrimQuotes(p.etag)
  }

  lemma {:induction false} Found(parts: seq<PartInfo>, number: int)
    ensures Find(parts, number).Some? ==> Find(parts, number).value in parts && Find(parts, number).value.partNumber == number
  {
    if parts != [] {
      Found(parts[1..], number);
    }
  }

  lemma SelectedRight(request: seq<CompletePart>, uploaded: seq<PartInfo>, disableMinPartSize: bool)
    requires RequestOk(request, uploaded, if disableMinPartSize then 0 else MIN_PART_SIZE)
    requires forall k :: 0 <= k < |SortByNumber(request)| ==> Find(uploaded, SortByNumber(request)[k].partNumber).Some?
    ensures Selects(request, uploaded, disableMinPartSize, Selected(SortByNumber(request), uploaded))
  {
    var parts := SortByNumber(request);
    var selected := Selected(parts, uploaded);
    assert |request| == |multiset(request)| && |parts| == |multiset(parts)|;
    forall k | 0 <= k < |parts|
      ensures selected[k] in uploaded && Matches(selected[k], parts[k])
      ensures k < |parts| - 1 && !disableMinPartSize ==> selected[k].size >= MIN_PART_SIZE
    {
      Found(uploaded, parts[k].partNumber);
      assert Usable(parts[k], uploaded, if k < |parts| - 1 then (if disableMinPartSize then 0 else MIN_PART_SIZE) else 0);
    }
    forall p | p in request
      ensures exists k :: 0 <= k < |selected| && Matches(selected[k], p)
    {
      assert p in multiset(parts);
      var k :| 0 <= k < |parts| && parts[k] == p;
      assert Matches(selected[k], p);
    }
  }

  /** Checks a completion request and selects the recorded parts it names. */
  method SelectParts(request: seq<CompletePart>, uploaded: seq<PartInfo>, disableMinPartSize: bool) returns (r: Result<seq<PartInfo>>)
    ensures
      var rejection := Rejection(request, uploaded, if disableMinPartSize then 0 else MIN_PART_SIZE);
      match r
      case Err(error) => rejection == Some(error)
      case Ok(selected) =>
        && rejection == None
        && (forall k :: 0 <= k < |SortByNumber(request)| ==> Find(uploaded, SortByNumber(request)[k].partNumber).Some?)
        && selected == Selected(SortByNumber(request), uploaded)
    ensures r.Err? ==> !RequestOk(request, uploaded, if disableMinPartSize then 0 else 5 * 1024 * 1024)
    ensures r.Ok? ==> Selects(request, uploaded, disableMinPartSize, r.value)
  {
    var minSize := if disableMinPartSize then 0 else MIN_PART_SIZE;
    var parts := SortByNumber(request);
    RefusedExactly(request, uploaded, minSize);
    var repeated := FindRepeated(parts);
    if repeated.Some? {
      return Err(ListedTwice(repeated.value));
    }
    if |parts| == 0 {
      return Err(NoParts);
    }
    var error := CheckParts(parts, uploaded, minSize);
    if error.Some? {
      return Err(error.value);
    }
    r := Ok(Selected(parts, uploaded));
    SelectedRight(request, uploaded, disableMinPartSize);
  }
}
