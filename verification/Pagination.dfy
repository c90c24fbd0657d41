/**
 Listing an account's modules and resources page by page.  The store is the
 account's slice of the key index at one version, in storage-key order.
 */
module Pagination {
  import opened Common
  import Orbit
  import PageTrace

  type byte = x: int | 0 <= x < 256
  type Bytes = seq<byte>

  // ---- Storage keys ----

  function Uleb128(n: nat): Bytes {
    if n < 128 then [n] else [n % 128 + 128] + Uleb128(n / 128)
  }

  /** What follows the account's common prefix: the length of the path, then the path. */
  function StorageKey(path: Bytes): Bytes {
    Uleb128(|path|) + path
  }

  /** Reads a length back, with what follows it. */
  function ReadUleb128(b: Bytes): Option<(nat, Bytes)> {
    if b == [] then None
    else if b[0] < 128 then Some((b[0], b[1..]))
    else
      match ReadUleb128(b[1..])
      case None => None
      case Some((n, rest)) => Some((b[0] - 128 + 128 * n, rest))
  }

  lemma {:induction false} LengthReadsBack(n: nat, rest: Bytes)
    ensures ReadUleb128(Uleb128(n) + rest) == Some((n, rest))
  {
    var b := Uleb128(n) + rest;
    if n < 128 {
      assert b[1..] == rest;
    } else {
      LengthReadsBack(n / 128, rest);
      assert b[1..] == Uleb128(n / 128) + rest;
    }
  }

  /** A storage key determines the path it was made from. */
  lemma KeyReadsBack(path: Bytes)
    ensures ReadUleb128(StorageKey(path)) == Some((|path|, path))
  {
    LengthReadsBack(|path|, path);
  }

  /** Byte-wise order. */
  predicate Less(a: Bytes, b: Bytes) {
    b != [] && (a == [] || a[0] < b[0] || (a[0] == b[0] && Less(a[1..], b[1..])))
  }

  lemma {:induction false} LessIrreflexive(a: Bytes)
    ensures !Less(a, a)
  {
    if a != [] {
      LessIrreflexive(a[1..]);
    }
  }

  lemma {:induction false} LessTransitive(a: Bytes, b: Bytes, c: Bytes)
    requires Less(a, b) && Less(b, c)
    ensures Less(a, c)
  {
    if a != [] && a[0] == b[0] == c[0] {
      LessTransitive(a[1..], b[1..], c[1..]);
    }
  }

  lemma {:induction false} LessCommonPrefix(p: Bytes, a: Bytes, b: Bytes)
    ensures Less(p + a, p + b) <==> Less(a, b)
  {
    if p == [] {
      assert p + a == a && p + b == b;
    } else {
      LessCommonPrefix(p[1..], a, b);
      assert (p + a)[1..] == p[1..] + a && (p + b)[1..] == p[1..] + b;
    }
  }

  datatype Path = Code(id: Bytes) | Resource(tag: Bytes) | ResourceGroup(tag: Bytes) {
    function Encode(): Bytes {
      match this
      case Code(id) => [0] + id
      case Resource(tag) => [1] + tag
      case ResourceGroup(tag) => [2] + tag
    }
  }

  /** A resource's key comes before the key of the group of the same name. */
  lemma ResourceBeforeGroup(tag: Bytes)
    ensures Less(StorageKey(Resource(tag).Encode()), StorageKey(ResourceGroup(tag).Encode()))
  {
    assert |Resource(tag).Encode()| == |ResourceGroup(tag).Encode()|;
    LessCommonPrefix(Uleb128(|tag| + 1), Resource(tag).Encode(), ResourceGroup(tag).Encode());
  }

  // ---- The store and the scan ----

  /** What reading a key's value at the version gives. */
  datatype Read = Present(value: Bytes) | Absent | Failed

  datatype Entry = Entry(path: Bytes, read: Read)

  /** The account's keys in order; `parses` says which path bytes deserialize. */
  datatype Store = Store(entries: seq<Entry>, parses: Bytes -> bool) {
    ghost predicate Valid() {
      Ordered(entries)
    }

    function Decode(path: Bytes): (r: Option<Path>)
      ensures r.Some? ==> r.value.Encode() == path
    {
      if path == [] || !parses(path) then None
      else if path[0] == 0 then Some(Code(path[1..]))
      else if path[0] == 1 then Some(Resource(path[1..]))
      else if path[0] == 2 then Some(ResourceGroup(path[1..]))
      else None
    }
  }

  /** Path bytes decode exactly when they deserialize and are the encoding of a path, which is then the result. */
  lemma DecodesExactlyWhen(s: Store, bytes: Bytes, path: Path)
    ensures s.Decode(bytes) == Some(path) <==> s.parses(bytes) && path.Encode() == bytes
  {
    if path.Encode() == bytes {
      match path
      case Code(id) => assert bytes[1..] == id;
      case Resource(tag) => assert bytes[1..] == tag;
      case ResourceGroup(tag) => assert bytes[1..] == tag;
    }
  }

  ghost predicate Ordered(entries: seq<Entry>) {
    forall i, j :: 0 <= i < j < |entries| ==> Less(StorageKey(entries[i].path), StorageKey(entries[j].path))
  }

  datatype Kind = Modules | Resources {
    predicate Selects(path: Path) {
      this.Modules? <==> path.Code?
    }

    /** The key a page hands out to resume at an item: resource groups are named as resources. */
    function Cursor(path: Path): Bytes {
      StorageKey(if path.ResourceGroup? then Resource(path.tag).Encode() else path.Encode())
    }
  }

  /** An element of the filtered stream: an item of the kind, or an error. */
  datatype Scanned = Found(key: Bytes, path: Path, value: Bytes) | Broken(key: Bytes)

  function ScanEntry(s: Store, kind: Kind, e: Entry): seq<Scanned> {
    var key, path := StorageKey(e.path), s.Decode(e.path);
    match e.read
    case Absent => []
    case Failed => [Broken(key)]
    case Present(value) =>
      if path.None? then [Broken(key)]
      else if kind.Selects(path.value) then [Found(key, path.value, value)]
      else []
  }

  function Scan(s: Store, kind: Kind, entries: seq<Entry>): seq<Scanned> {
    if entries == [] then [] else ScanEntry(s, kind, entries[0]) + Scan(s, kind, entries[1..])
  }

  // ---- What the stream should hold ----

  /** Modules are code; resources are plain resources and groups. */
  ghost predicate IsOf(kind: Kind, path: Path) {
    match kind
    case Modules => path.Code?
    case Resources => path.Resource? || path.ResourceGroup?
  }

  ghost predicate Decodes(s: Store, e: Entry, path: Path) {
    s.parses(e.path) && path.Encode() == e.path
  }

  /** The entry fails to read, or has a value under a path that does not decode. */
  ghost predicate Unreadable(s: Store, e: Entry) {
    e.read.Failed? || (e.read.Present? && forall path :: !Decodes(s, e, path))
  }

  /** The element that an entry is due in the stream of a kind. */
  ghost predicate Yields(s: Store, kind: Kind, e: Entry, x: Scanned) {
    match x
    case Found(key, path, value) =>
      e.read == Present(value) && Decodes(s, e, path) && IsOf(kind, path) && key == StorageKey(e.path)
    case Broken(key) => Unreadable(s, e) && key == StorageKey(e.path)
  }

  ghost predicate Due(s: Store, kind: Kind, entries: seq<Entry>, x: Scanned) {
    exists i :: 0 <= i < |entries| && Yields(s, kind, entries[i], x)
  }

  /** In key order, exactly what the entries are due. */
  ghost predicate ListsStore(s: Store, kind: Kind, items: seq<Scanned>) {
    Increasing(items) && forall x :: x in items <==> Due(s, kind, s.entries, x)
  }

  ghost predicate Readable(s: Store) {
    forall i :: 0 <= i < |s.entries| ==> !Unreadable(s, s.entries[i])
  }

  lemma ScanEntryYields(s: Store, kind: Kind, e: Entry, x: Scanned)
    ensures x in ScanEntry(s, kind, e) <==> Yields(s, kind, e, x)
  {
    var path := s.Decode(e.path);
    if path.Some? {
      DecodesExactlyWhen(s, e.path, path.value);
      assert Decodes(s, e, path.value);
    }
    forall p: Path ensures Decodes(s, e, p) <==> path == Some(p) {
      DecodesExactlyWhen(s, e.path, p);
    }
  }

  lemma {:induction false} ScanYields(s: Store, kind: Kind, entries: seq<Entry>, x: Scanned)
    ensures x in Scan(s, kind, entries) <==> Due(s, kind, entries, x)
  {
    if entries != [] {
      ScanEntryYields(s, kind, entries[0], x);
      ScanYields(s, kind, entries[1..], x);
      if Due(s, kind, entries[1..], x) {
        var i :| 0 <= i < |entries[1..]| && Yields(s, kind, entries[1..][i], x);
        assert Yields(s, kind, entries[i + 1], x);
      }
      if Due(s, kind, entries, x) {
        var i :| 0 <= i < |entries| && Yields(s, kind, entries[i], x);
        if i > 0 {
          assert Yields(s, kind, entries[1..][i - 1], x);
        }
      }
    }
  }

  /** Seek: drop the entries before a key. */
  function From(entries: seq<Entry>, key: Bytes): seq<Entry> {
    if entries != [] && Less(StorageKey(entries[0].path), key) then From(entries[1..], key) else entries
  }

  // ---- Pages ----

  datatype Page = Page(items: seq<Scanned>, next: Option<Bytes>)

  predicate AllFound(items: seq<Scanned>) {
    forall i :: 0 <= i < |items| ==> items[i].Found?
  }

  /** The first `limit` items and the cursor of the one after; an error among those fails the page. */
  function PageOf(kind: Kind, items: seq<Scanned>, limit: nat): Option<Page> {
    if !AllFound(items[..Min(limit, |items|)]) then None
    else if |items| <= limit then Some(Page(items, None))
    else if items[limit].Broken? then None
    else Some(Page(items[..limit], Some(kind.Cursor(items[limit].path))))
  }

  function GetPage(s: Store, kind: Kind, cursor: Option<Bytes>, limit: nat): Option<Page> {
    var entries := if cursor.None? then s.entries else From(s.entries, cursor.value);
    PageOf(kind, Scan(s, kind, entries), limit)
  }

  function All(s: Store, kind: Kind): seq<Scanned> {
    Scan(s, kind, s.entries)
  }

  // ---- Pages by position in the whole list ----

  ghost predicate Increasing(items: seq<Scanned>) {
    forall i, j :: 0 <= i < j < |items| ==> Less(items[i].key, items[j].key)
  }

  /** The number of items before a key. */
  function Position(items: seq<Scanned>, key: Bytes): (p: nat)
    ensures p <= |items|
  {
    if items != [] && Less(items[0].key, key) then 1 + Position(items[1..], key) else 0
  }

  /** Exactly the items before the position come before the key. */
  lemma {:induction false} PositionSplits(items: seq<Scanned>, key: Bytes)
    requires Increasing(items)
    ensures forall i :: 0 <= i < |items| ==> (Less(items[i].key, key) <==> i < Position(items, key))
  {
    if items != [] {
      PositionSplits(items[1..], key);
      forall i | 0 <= i < |items| ensures Less(items[i].key, key) <==> i < Position(items, key) {
        if i > 0 {
          assert items[i] == items[1..][i - 1];
          if Less(items[i].key, key) {
            LessTransitive(items[0].key, items[i].key, key);
          }
        }
      }
    }
  }

  lemma {:induction false} ScanAbove(s: Store, kind: Kind, entries: seq<Entry>, key: Bytes)
    requires forall i :: 0 <= i < |entries| ==> Less(key, StorageKey(entries[i].path))
    ensures forall i :: 0 <= i < |Scan(s, kind, entries)| ==> Less(key, Scan(s, kind, entries)[i].key)
  {
    if entries != [] {
      ScanAbove(s, kind, entries[1..], key);
    }
  }

  /** The filtered stream is in strictly increasing key order. */
  lemma {:induction false} ScanIncreasing(s: Store, kind: Kind, entries: seq<Entry>)
    requires Ordered(entries)
    ensures Increasing(Scan(s, kind, entries))
  {
    if entries != [] {
      ScanIncreasing(s, kind, entries[1..]);
      ScanAbove(s, kind, entries[1..], StorageKey(entries[0].path));
    }
  }

  lemma {:induction false} ScanFound(s: Store, kind: Kind, entries: seq<Entry>)
    ensures forall i :: 0 <= i < |Scan(s, kind, entries)| ==>
      var item := Scan(s, kind, entries)[i];
      item.Found? ==> kind.Selects(item.path) && item.key == StorageKey(item.path.Encode())
  {
    if entries != [] {
      ScanFound(s, kind, entries[1..]);
    }
  }

  /** Seeking and then filtering is filtering and then seeking. */
  lemma {:induction false} ScanFrom(s: Store, kind: Kind, entries: seq<Entry>, key: Bytes)
    requires Ordered(entries)
    ensures Scan(s, kind, From(entries, key)) == Seek(Scan(s, kind, entries), key)
  {
    if entries == [] {
    } else if Less(StorageKey(entries[0].path), key) {
      ScanFrom(s, kind, entries[1..], key);
      EntrySkips(s, kind, entries[0], Scan(s, kind, entries[1..]), key);
    } else {
      AboveStays(s, kind, entries, key);
    }
  }

  lemma EntrySkips(s: Store, kind: Kind, e: Entry, rest: seq<Scanned>, key: Bytes)
    requires Less(StorageKey(e.path), key)
    ensures Seek(ScanEntry(s, kind, e) + rest, key) == Seek(rest, key)
  {
    PositionSkips(ScanEntry(s, kind, e), rest, key);
  }

  function Seek(items: seq<Scanned>, key: Bytes): seq<Scanned> {
    items[Position(items, key)..]
  }

  lemma PositionSkips(first: seq<Scanned>, rest: seq<Scanned>, key: Bytes)
    requires |first| <= 1 && (first != [] ==> Less(first[0].key, key))
    ensures Seek(first + rest, key) == Seek(rest, key)
  {
    if first == [] {
      assert first + rest == rest;
    } else {
      assert (first + rest)[1..] == rest;
    }
  }

  lemma AboveStays(s: Store, kind: Kind, entries: seq<Entry>, key: Bytes)
    requires Ordered(entries) && entries != [] && !Less(StorageKey(entries[0].path), key)
    ensures Seek(Scan(s, kind, entries), key) == Scan(s, kind, entries)
  {
    var first, items := ScanEntry(s, kind, entries[0]), Scan(s, kind, entries);
    if first == [] && items != [] && Less(items[0].key, key) {
      ScanAbove(s, kind, entries[1..], StorageKey(entries[0].path));
      assert items == Scan(s, kind, entries[1..]);
      LessTransitive(StorageKey(entries[0].path), items[0].key, key);
    }
  }

  /** Where a cursor leads in a list. */
  function Start(items: seq<Scanned>, cursor: Option<Bytes>): (q: nat)
    ensures q <= |items|
  {
    if cursor.None? then 0 else Position(items, cursor.value)
  }

  function PageAfter(kind: Kind, items: seq<Scanned>, cursor: Option<Bytes>, limit: nat): Option<Page> {
    PageOf(kind, items[Start(items, cursor)..], limit)
  }

  /** Every page is a stretch of the whole list, from the position of its cursor. */
  lemma GetPageAt(s: Store, kind: Kind, cursor: Option<Bytes>, limit: nat)
    requires s.Valid()
    ensures GetPage(s, kind, cursor, limit) == PageAfter(kind, All(s, kind), cursor, limit)
  {
    if cursor.Some? {
      ScanFrom(s, kind, s.entries, cursor.value);
    }
  }

  /** In key order, each item of the kind under its own key. */
  ghost predicate Sound(kind: Kind, items: seq<Scanned>) {
    && Increasing(items)
    && forall i :: 0 <= i < |items| && items[i].Found? ==>
         kind.Selects(items[i].path) && items[i].key == StorageKey(items[i].path.Encode())
  }

  lemma AllSound(s: Store, kind: Kind)
    requires s.Valid()
    ensures Sound(kind, All(s, kind))
  {
    ScanIncreasing(s, kind, s.entries);
    ScanFound(s, kind, s.entries);
  }

  lemma {:induction false} SameElements(a: seq<Scanned>, b: seq<Scanned>)
    requires Increasing(a) && Increasing(b) && forall x :: x in a <==> x in b
    ensures a == b
  {
    assert b != [] ==> b[0] in a;
    if a != [] {
      assert a[0] in b;
      SameFirst(a, b);
      forall x ensures x in a[1..] <==> x in b[1..] {
        if x in a[1..] {
          SameRest(a, b, x);
        }
        if x in b[1..] {
          SameRest(b, a, x);
        }
      }
      SameElements(a[1..], b[1..]);
      assert a == [a[0]] + a[1..] && b == [b[0]] + b[1..];
    }
  }

  lemma SameFirst(a: seq<Scanned>, b: seq<Scanned>)
    requires Increasing(a) && Increasing(b) && a != [] && b != [] && a[0] in b && b[0] in a
    ensures a[0] == b[0]
  {
    if a[0] != b[0] {
      LessTransitive(a[0].key, b[0].key, a[0].key);
      LessIrreflexive(a[0].key);
    }
  }

  lemma SameRest(a: seq<Scanned>, b: seq<Scanned>, x: Scanned)
    requires Increasing(a) && a != [] && b != [] && a[0] == b[0] && (x in a ==> x in b) && x in a[1..]
    ensures x in b[1..]
  {
    LessIrreflexive(a[0].key);
  }

  /** The filtered stream is exactly what the store's entries are due, one element for each in key order. */
  lemma AllListsStore(s: Store, kind: Kind, items: seq<Scanned>)
    requires s.Valid()
    ensures ListsStore(s, kind, items) <==> items == All(s, kind)
  {
    ScanIncreasing(s, kind, s.entries);
    forall x ensures x in All(s, kind) <==> Due(s, kind, s.entries, x) {
      ScanYields(s, kind, s.entries, x);
    }
    if ListsStore(s, kind, items) {
      SameElements(items, All(s, kind));
    }
  }

  /** It has no error exactly when every entry can be read. */
  lemma AllFoundExactlyWhen(s: Store, kind: Kind)
    ensures AllFound(All(s, kind)) <==> Readable(s)
  {
    forall i | 0 <= i < |s.entries| && Unreadable(s, s.entries[i]) ensures !AllFound(All(s, kind)) {
      var x := Broken(StorageKey(s.entries[i].path));
      assert Yields(s, kind, s.entries[i], x);
      ScanYields(s, kind, s.entries, x);
    }
    forall k | 0 <= k < |All(s, kind)| && All(s, kind)[k].Broken? ensures !Readable(s) {
      ScanYields(s, kind, s.entries, All(s, kind)[k]);
    }
  }

  /** No item lies between the cursor that names item p and item p itself. */
  ghost predicate Clean(kind: Kind, items: seq<Scanned>, p: nat)
    requires p < |items| && items[p].Found?
  {
    forall i :: 0 <= i < p ==> Less(items[i].key, kind.Cursor(items[p].path))
  }

  /** A cursor is no greater than the key of the item it names, and equal to it except for groups. */
  lemma CursorAtMostKey(kind: Kind, path: Path)
    ensures var key, cursor := StorageKey(path.Encode()), kind.Cursor(path);
      && !Less(key, cursor)
      && if path.ResourceGroup? then Less(cursor, key) && cursor == StorageKey(Resource(path.tag).Encode())
         else cursor == key
  {
    var key, cursor := StorageKey(path.Encode()), kind.Cursor(path);
    LessIrreflexive(key);
    if path.ResourceGroup? {
      ResourceBeforeGroup(path.tag);
      if Less(key, cursor) {
        LessTransitive(key, cursor, key);
      }
    }
  }

  /** A cursor never resumes past the item it names, and resumes exactly there when nothing lies between. */
  lemma ResumeAt(kind: Kind, items: seq<Scanned>, p: nat)
    requires Sound(kind, items) && p < |items| && items[p].Found?
    ensures var q := Position(items, kind.Cursor(items[p].path));
      && q <= p && (q == p <==> Clean(kind, items, p))
      && (!items[p].path.ResourceGroup? ==> Clean(kind, items, p))
  {
    var cursor := kind.Cursor(items[p].path);
    PositionSplits(items, cursor);
    CursorAtMostKey(kind, items[p].path);
    if p > 0 {
      assert Less(items[p - 1].key, cursor) <==> p - 1 < Position(items, cursor);
    }
  }

  /** Where the cursor that names each item resumes; a broken item is never named. */
  function Resumes(kind: Kind, items: seq<Scanned>): seq<nat> {
    seq(|items|, p requires 0 <= p < |items| =>
      if items[p].Found? then Position(items, kind.Cursor(items[p].path)) else p)
  }

  lemma ResumesEarly(kind: Kind, items: seq<Scanned>)
    requires Sound(kind, items)
    ensures Early(Resumes(kind, items))
  {
    forall p | 0 <= p < |items| ensures Resumes(kind, items)[p] <= p {
      if items[p].Found? {
        ResumeAt(kind, items, p);
      }
    }
  }

  // ---- Whole listings ----

  function CursorBefore(pages: seq<Page>, i: nat): Option<Bytes>
    requires i <= |pages|
  {
    if i == 0 then None else pages[i - 1].next
  }

  ghost predicate RunAt(s: Store, kind: Kind, limit: nat, pages: seq<Page>, i: nat)
    requires i < |pages|
  {
    GetPage(s, kind, CursorBefore(pages, i), limit) == Some(pages[i]) && (i > 0 ==> CursorBefore(pages, i).Some?)
  }

  /** Page after page, each from the cursor the previous one gave out. */
  ghost predicate IsRun(s: Store, kind: Kind, limit: nat, pages: seq<Page>) {
    forall i {:trigger RunAt(s, kind, limit, pages, i)} :: 0 <= i < |pages| ==> RunAt(s, kind, limit, pages, i)
  }

  ghost predicate IsListing(s: Store, kind: Kind, limit: nat, pages: seq<Page>) {
    IsRun(s, kind, limit, pages) && pages != [] && pages[|pages| - 1].next.None?
  }

  function ItemsOf(pages: seq<Page>): seq<seq<Scanned>> {
    seq(|pages|, i requires 0 <= i < |pages| => pages[i].items)
  }

  function Flatten(pages: seq<Page>): seq<Scanned> {
    PageTrace.Concat(ItemsOf(pages))
  }

  // ---- Listings as traces of positions ----

  /** Page i is the page after the cursor of the one before. */
  ghost predicate Follows(kind: Kind, items: seq<Scanned>, limit: nat, pages: seq<Page>, i: nat)
    requires i < |pages|
  {
    && PageAfter(kind, items, CursorBefore(pages, i), limit) == Some(pages[i])
    && (i > 0 ==> CursorBefore(pages, i).Some?)
  }

  lemma RunFollows(s: Store, kind: Kind, limit: nat, pages: seq<Page>, i: nat)
    requires s.Valid() && i < |pages|
    ensures RunAt(s, kind, limit, pages, i) <==> Follows(kind, All(s, kind), limit, pages, i)
  {
    GetPageAt(s, kind, CursorBefore(pages, i), limit);
  }

  /** What a page shows and the cursor it gives out, from position q. */
  ghost predicate ShowsFrom(kind: Kind, items: seq<Scanned>, q: nat, limit: nat, page: Page) {
    && q <= |items| && page.items == items[q..Min(q + limit, |items|)] && AllFound(page.items)
    && if q + limit < |items|
       then items[q + limit].Found? && page.next == Some(kind.Cursor(items[q + limit].path))
       else page.next == None
  }

  lemma PageShows(kind: Kind, items: seq<Scanned>, q: nat, limit: nat, page: Page)
    requires q <= |items|
    ensures PageOf(kind, items[q..], limit) == Some(page) <==> ShowsFrom(kind, items, q, limit, page)
  {
    var rest := items[q..];
    assert rest[..Min(limit, |rest|)] == items[q..Min(q + limit, |items|)];
    assert rest[..|rest|] == rest;
    if q + limit < |items| {
      assert rest[limit] == items[q + limit];
    }
  }

  function Starts(items: seq<Scanned>, pages: seq<Page>): seq<nat> {
    seq(|pages|, i requires 0 <= i < |pages| => Start(items, CursorBefore(pages, i)))
  }

  lemma PageAt(kind: Kind, items: seq<Scanned>, limit: nat, pages: seq<Page>, i: nat)
    requires i < |pages| && Follows(kind, items, limit, pages, i)
    ensures ShowsFrom(kind, items, Starts(items, pages)[i], limit, pages[i])
  {
    PageShows(kind, items, Starts(items, pages)[i], limit, pages[i]);
  }

  /** No cursor resumes past the item it names. */
  ghost predicate Early(resume: seq<nat>) {
    forall p :: 0 <= p < |resume| ==> resume[p] <= p
  }

  /** The next page starts where the cursor of the item after this one leads. */
  lemma LedAt(kind: Kind, items: seq<Scanned>, limit: nat, pages: seq<Page>, i: nat)
    requires Early(Resumes(kind, items)) && i + 1 < |pages|
    requires Follows(kind, items, limit, pages, i) && Follows(kind, items, limit, pages, i + 1)
    ensures PageTrace.LeadsAt(Resumes(kind, items), limit, Starts(items, pages), i)
  {
    PageAt(kind, items, limit, pages, i);
  }

  lemma ShownAt(kind: Kind, items: seq<Scanned>, limit: nat, pages: seq<Page>, i: nat)
    requires i < |pages| && Follows(kind, items, limit, pages, i)
    ensures PageTrace.ShowsAt(items, limit, ItemsOf(pages), Starts(items, pages), i)
    ensures AllFound(pages[i].items)
    ensures pages[i].next.None? ==> Starts(items, pages)[i] + limit >= |items|
  {
    PageAt(kind, items, limit, pages, i);
  }

  ghost predicate AllFollow(kind: Kind, items: seq<Scanned>, limit: nat, pages: seq<Page>) {
    forall i: nat {:trigger Follows(kind, items, limit, pages, i)} :: i < |pages| ==>
      Follows(kind, items, limit, pages, i)
  }

  lemma RunAllFollow(s: Store, kind: Kind, limit: nat, pages: seq<Page>)
    requires s.Valid()
    ensures IsRun(s, kind, limit, pages) <==> AllFollow(kind, All(s, kind), limit, pages)
  {
    forall i: nat | i < |pages|
      ensures RunAt(s, kind, limit, pages, i) <==> Follows(kind, All(s, kind), limit, pages, i)
    {
      RunFollows(s, kind, limit, pages, i);
    }
  }

  lemma AllShown(kind: Kind, items: seq<Scanned>, limit: nat, pages: seq<Page>, shown: seq<seq<Scanned>>, q: seq<nat>)
    requires AllFollow(kind, items, limit, pages) && shown == ItemsOf(pages) && q == Starts(items, pages)
    ensures |shown| == |q| == |pages| && (pages != [] ==> q[0] == 0)
    ensures forall i: nat {:trigger PageTrace.ShowsAt(items, limit, shown, q, i)} :: i < |q| ==>
      PageTrace.ShowsAt(items, limit, shown, q, i)
    ensures forall i :: 0 <= i < |pages| ==> AllFound(pages[i].items)
    ensures pages != [] && pages[|pages| - 1].next.None? ==> q[|q| - 1] + limit >= |items|
  {
    forall i: nat | i < |pages|
      ensures PageTrace.ShowsAt(items, limit, shown, q, i) && AllFound(pages[i].items)
      ensures pages[i].next.None? ==> q[i] + limit >= |items|
    {
      assert Follows(kind, items, limit, pages, i);
      ShownAt(kind, items, limit, pages, i);
    }
  }

  lemma AllLed(kind: Kind, items: seq<Scanned>, limit: nat, pages: seq<Page>, resume: seq<nat>, q: seq<nat>)
    requires AllFollow(kind, items, limit, pages) && resume == Resumes(kind, items) && Early(resume)
    requires q == Starts(items, pages)
    ensures forall i: nat {:trigger PageTrace.LeadsAt(resume, limit, q, i)} :: i + 1 < |q| ==>
      PageTrace.LeadsAt(resume, limit, q, i)
  {
    forall i: nat | i + 1 < |pages| ensures PageTrace.LeadsAt(resume, limit, q, i) {
      assert Follows(kind, items, limit, pages, i) && Follows(kind, items, limit, pages, i + 1);
      LedAt(kind, items, limit, pages, i);
    }
  }

  lemma PagesTrace(kind: Kind, items: seq<Scanned>, limit: nat, pages: seq<Page>)
    requires Early(Resumes(kind, items)) && AllFollow(kind, items, limit, pages)
    requires pages != [] && pages[|pages| - 1].next.None?
    ensures PageTrace.IsTrace(items, Resumes(kind, items), limit, ItemsOf(pages), Starts(items, pages))
    ensures forall i :: 0 <= i < |pages| ==> AllFound(pages[i].items)
  {
    AllShown(kind, items, limit, pages, ItemsOf(pages), Starts(items, pages));
    AllLed(kind, items, limit, pages, Resumes(kind, items), Starts(items, pages));
  }

  /** A listing that ends, as a trace of positions. */
  lemma TraceOf(s: Store, kind: Kind, limit: nat, pages: seq<Page>) returns (q: seq<nat>)
    requires s.Valid() && IsListing(s, kind, limit, pages)
    ensures PageTrace.IsTrace(All(s, kind), Resumes(kind, All(s, kind)), limit, ItemsOf(pages), q)
    ensures forall i :: 0 <= i < |pages| ==> AllFound(pages[i].items)
  {
    AllSound(s, kind);
    ResumesEarly(kind, All(s, kind));
    RunAllFollow(s, kind, limit, pages);
    PagesTrace(kind, All(s, kind), limit, pages);
    q := Starts(All(s, kind), pages);
  }

  function PageFrom(kind: Kind, items: seq<Scanned>, q: nat, limit: nat): Page
    requires q <= |items| && AllFound(items)
  {
    Page(items[q..Min(q + limit, |items|)],
      if q + limit < |items| then Some(kind.Cursor(items[q + limit].path)) else None)
  }

  lemma PageFromIs(kind: Kind, items: seq<Scanned>, cursor: Option<Bytes>, limit: nat)
    requires AllFound(items)
    ensures PageAfter(kind, items, cursor, limit) == Some(PageFrom(kind, items, Start(items, cursor), limit))
  {
    var q := Start(items, cursor);
    PageShows(kind, items, q, limit, PageFrom(kind, items, q, limit));
  }

  lemma CursorLeads(kind: Kind, items: seq<Scanned>, q: nat, limit: nat)
    requires AllFound(items) && q + limit < |items|
    ensures var next := PageFrom(kind, items, q, limit).next;
      next.Some? && Start(items, next) == Resumes(kind, items)[q + limit]
  {
  }

  lemma FollowsPath(kind: Kind, items: seq<Scanned>, limit: nat, pages: seq<Page>, q: seq<nat>, i: nat)
    requires AllFound(items) && i < |pages| == |q| && q[0] == 0
    requires q[i] <= |items| && pages[i] == PageFrom(kind, items, q[i], limit)
    requires i > 0 ==> q[i - 1] <= |items| && pages[i - 1] == PageFrom(kind, items, q[i - 1], limit)
    requires i > 0 ==> PageTrace.LeadsAt(Resumes(kind, items), limit, q, i - 1)
    ensures Follows(kind, items, limit, pages, i)
  {
    if i > 0 {
      CursorLeads(kind, items, q[i - 1], limit);
    }
    PageFromIs(kind, items, CursorBefore(pages, i), limit);
  }

  lemma TracePages(kind: Kind, items: seq<Scanned>, limit: nat, shown: seq<seq<Scanned>>, q: seq<nat>)
    returns (pages: seq<Page>)
    requires AllFound(items) && PageTrace.IsTrace(items, Resumes(kind, items), limit, shown, q)
    ensures AllFollow(kind, items, limit, pages) && pages != [] && pages[|pages| - 1].next.None?
  {
    PageTrace.StartsWithin(items, Resumes(kind, items), limit, shown, q);
    pages := PagesFrom(kind, items, limit, q);
    forall i: nat | i < |pages| ensures Follows(kind, items, limit, pages, i) {
      if i > 0 {
        assert PageTrace.LeadsAt(Resumes(kind, items), limit, q, i - 1);
      }
      FollowsPath(kind, items, limit, pages, q, i);
    }
  }

  function PagesFrom(kind: Kind, items: seq<Scanned>, limit: nat, q: seq<nat>): (pages: seq<Page>)
    requires AllFound(items) && forall i :: 0 <= i < |q| ==> q[i] <= |items|
    ensures |pages| == |q| && forall i :: 0 <= i < |q| ==> pages[i] == PageFrom(kind, items, q[i], limit)
  {
    seq(|q|, i requires 0 <= i < |q| => PageFrom(kind, items, q[i], limit))
  }

  /** A trace of positions over items that can all be read, as a listing that ends. */
  lemma ListingOf(s: Store, kind: Kind, limit: nat, shown: seq<seq<Scanned>>, q: seq<nat>) returns (pages: seq<Page>)
    requires s.Valid() && AllFound(All(s, kind))
    requires PageTrace.IsTrace(All(s, kind), Resumes(kind, All(s, kind)), limit, shown, q)
    ensures IsListing(s, kind, limit, pages)
  {
    pages := TracePages(kind, All(s, kind), limit, shown, q);
    RunAllFollow(s, kind, limit, pages);
  }

  /** A listing that ends has shown every item, of either kind, and met no error. */
  lemma ListingCovers(s: Store, kind: Kind, limit: nat, pages: seq<Page>, x: nat)
    requires s.Valid() && IsListing(s, kind, limit, pages) && x < |All(s, kind)|
    ensures All(s, kind)[x].Found?
    ensures exists i :: 0 <= i < |pages| && All(s, kind)[x] in pages[i].items
  {
    var q := TraceOf(s, kind, limit, pages);
    var i := PageTrace.Covers(All(s, kind), Resumes(kind, All(s, kind)), limit, ItemsOf(pages), q, x);
    assert All(s, kind)[x] in pages[i].items;
  }

  lemma ListingFindsAll(s: Store, kind: Kind, limit: nat, pages: seq<Page>)
    requires s.Valid() && IsListing(s, kind, limit, pages)
    ensures AllFound(All(s, kind))
  {
    forall x | 0 <= x < |All(s, kind)| ensures All(s, kind)[x].Found? {
      ListingCovers(s, kind, limit, pages, x);
    }
  }

  // ---- Exactly once ----

  /** Where a page should start, nothing lies between the cursor that is given out and the item it names. */
  ghost predicate CleanBoundaries(kind: Kind, items: seq<Scanned>, limit: nat) {
    forall b: nat {:trigger PageTrace.IsBoundary(limit, b)} :: b < |items| && PageTrace.IsBoundary(limit, b) ==>
      items[b].Found? && Clean(kind, items, b)
  }

  /** Clean boundaries are those where cursors resume exactly. */
  lemma CleanResumes(s: Store, kind: Kind, limit: nat)
    requires s.Valid() && AllFound(All(s, kind))
    ensures CleanBoundaries(kind, All(s, kind), limit) <==>
      PageTrace.ResumesExactly(Resumes(kind, All(s, kind)), limit)
  {
    var items, resume := All(s, kind), Resumes(kind, All(s, kind));
    AllSound(s, kind);
    forall b: nat | b < |items| && PageTrace.IsBoundary(limit, b)
      ensures resume[b] == b <==> Clean(kind, items, b)
    {
      ResumeAt(kind, items, b);
    }
  }

  lemma AllDistinct(s: Store, kind: Kind)
    requires s.Valid()
    ensures PageTrace.Distinct(All(s, kind))
  {
    ScanIncreasing(s, kind, s.entries);
    var items := All(s, kind);
    forall i, j | 0 <= i < j < |items| ensures items[i] != items[j] {
      LessIrreflexive(items[i].key);
    }
  }

  /** A listing that ends shows every item exactly once, in order, if and only if every page boundary is clean. */
  lemma ListedOnceExactlyWhen(s: Store, kind: Kind, limit: nat, pages: seq<Page>)
    requires s.Valid() && limit > 0 && IsListing(s, kind, limit, pages)
    ensures Flatten(pages) == All(s, kind) <==> CleanBoundaries(kind, All(s, kind), limit)
  {
    var q := TraceOf(s, kind, limit, pages);
    AllDistinct(s, kind);
    ListingFindsAll(s, kind, limit, pages);
    CleanResumes(s, kind, limit);
    PageTrace.ExactlyWhen(All(s, kind), Resumes(kind, All(s, kind)), limit, ItemsOf(pages), q);
  }

  // ---- Listings that end ----

  /**
   The boundaries, each found from the cursor of the one before, leave the list:
   some boundary lies past it, and one no later than the number of items.
   */
  ghost predicate LeavesList(kind: Kind, items: seq<Scanned>, limit: nat) {
    Orbit.Leaves(PageTrace.NextBoundaries(Resumes(kind, items), limit), limit)
  }

  lemma LeavingListing(s: Store, kind: Kind, limit: nat) returns (pages: seq<Page>)
    requires s.Valid() && AllFound(All(s, kind)) && LeavesList(kind, All(s, kind), limit)
    ensures IsListing(s, kind, limit, pages)
  {
    AllSound(s, kind);
    ResumesEarly(kind, All(s, kind));
    var shown, q := PageTrace.Build(All(s, kind), Resumes(kind, All(s, kind)), limit);
    pages := ListingOf(s, kind, limit, shown, q);
  }

  /** For any page size, a listing ends if and only if no item is broken and the boundaries leave the list. */
  lemma ListingEndsExactlyWhen(s: Store, kind: Kind, limit: nat)
    requires s.Valid()
    ensures (exists pages :: IsListing(s, kind, limit, pages)) <==>
      AllFound(All(s, kind)) && LeavesList(kind, All(s, kind), limit)
  {
    forall pages | IsListing(s, kind, limit, pages)
      ensures AllFound(All(s, kind)) && LeavesList(kind, All(s, kind), limit)
    {
      ListingFindsAll(s, kind, limit, pages);
      var q := TraceOf(s, kind, limit, pages);
      PageTrace.TraceLeaves(All(s, kind), Resumes(kind, All(s, kind)), limit, ItemsOf(pages), q);
    }
    if AllFound(All(s, kind)) && LeavesList(kind, All(s, kind), limit) {
      var pages := LeavingListing(s, kind, limit);
    }
  }

  lemma CleanListingEnds(s: Store, kind: Kind, limit: nat) returns (pages: seq<Page>)
    requires s.Valid() && limit > 0 && AllFound(All(s, kind)) && CleanBoundaries(kind, All(s, kind), limit)
    ensures IsListing(s, kind, limit, pages)
  {
    CleanResumes(s, kind, limit);
    PageTrace.ExactLeaves(Resumes(kind, All(s, kind)), limit);
    pages := LeavingListing(s, kind, limit);
  }

  lemma ModulesClean(s: Store, limit: nat)
    requires s.Valid() && AllFound(All(s, Modules))
    ensures CleanBoundaries(Modules, All(s, Modules), limit)
  {
    AllSound(s, Modules);
    forall b: nat | b < |All(s, Modules)| && PageTrace.IsBoundary(limit, b) ensures Clean(Modules, All(s, Modules), b) {
      ResumeAt(Modules, All(s, Modules), b);
    }
  }

  /** The module listing ends exactly when no entry is broken, and then shows every module once, in order. */
  lemma ModulesListed(s: Store, limit: nat)
    requires s.Valid() && limit > 0
    ensures (exists pages :: IsListing(s, Modules, limit, pages)) <==> Readable(s)
    ensures forall pages :: IsListing(s, Modules, limit, pages) ==> ListsStore(s, Modules, Flatten(pages))
  {
    AllFoundExactlyWhen(s, Modules);
    forall pages | IsListing(s, Modules, limit, pages)
      ensures AllFound(All(s, Modules)) && ListsStore(s, Modules, Flatten(pages))
    {
      AllListsStore(s, Modules, Flatten(pages));
      ListingFindsAll(s, Modules, limit, pages);
      ModulesClean(s, limit);
      ListedOnceExactlyWhen(s, Modules, limit, pages);
    }
    if AllFound(All(s, Modules)) {
      ModulesClean(s, limit);
      var pages := CleanListingEnds(s, Modules, limit);
    }
  }

  /** Resources and groups are all listed once, in order, exactly when none is broken and boundaries are clean. */
  lemma ResourcesListed(s: Store, limit: nat)
    requires s.Valid() && limit > 0
    ensures (exists pages :: IsListing(s, Resources, limit, pages) && ListsStore(s, Resources, Flatten(pages))) <==>
      Readable(s) && CleanBoundaries(Resources, All(s, Resources), limit)
  {
    AllFoundExactlyWhen(s, Resources);
    forall pages | IsListing(s, Resources, limit, pages) && ListsStore(s, Resources, Flatten(pages))
      ensures AllFound(All(s, Resources)) && CleanBoundaries(Resources, All(s, Resources), limit)
    {
      AllListsStore(s, Resources, Flatten(pages));
      ListingFindsAll(s, Resources, limit, pages);
      ListedOnceExactlyWhen(s, Resources, limit, pages);
    }
    if AllFound(All(s, Resources)) && CleanBoundaries(Resources, All(s, Resources), limit) {
      var pages := CleanListingEnds(s, Resources, limit);
      ListedOnceExactlyWhen(s, Resources, limit, pages);
      AllListsStore(s, Resources, Flatten(pages));
    }
  }

  /** Two runs over the same store agree page by page. */
  lemma {:induction false} RunsAgree(s: Store, kind: Kind, limit: nat, a: seq<Page>, b: seq<Page>, i: nat)
    requires IsRun(s, kind, limit, a) && IsRun(s, kind, limit, b) && i < |a| && i < |b|
    ensures a[i] == b[i]
  {
    assert RunAt(s, kind, limit, a, i) && RunAt(s, kind, limit, b, i);
    if i > 0 {
      RunsAgree(s, kind, limit, a, b, i - 1);
    }
  }

  /** A first page whose cursor leads back to itself is all a client ever sees. */
  lemma {:induction false} RepeatsForever(s: Store, kind: Kind, limit: nat, page: Page, pages: seq<Page>, i: nat)
    requires GetPage(s, kind, None, limit) == Some(page) == GetPage(s, kind, page.next, limit)
    requires IsRun(s, kind, limit, pages) && i < |pages|
    ensures pages[i] == page
  {
    assert RunAt(s, kind, limit, pages, i);
    if i > 0 {
      RepeatsForever(s, kind, limit, page, pages, i - 1);
    }
  }

  lemma ExampleScan(s: Store, z: Scanned, a: Scanned)
    requires s.entries == [Entry([1, 122], Present([])), Entry([2, 97], Present([]))]
    requires forall b :: s.parses(b)
    requires z == Found([2, 1, 122], Resource([122]), []) && a == Found([2, 2, 97], ResourceGroup([97]), [])
    ensures s.Valid() && All(s, Resources) == [z, a]
  {
    assert StorageKey([1, 122]) == z.key && StorageKey([2, 97]) == a.key;
    SmallKeys();
    assert s.entries[1..] == [Entry([2, 97], Present([]))];
    assert Scan(s, Resources, s.entries[1..]) == [a];
  }

  lemma ExamplePage(z: Scanned, a: Scanned, page: Page)
    requires z == Found([2, 1, 122], Resource([122]), []) && a == Found([2, 2, 97], ResourceGroup([97]), [])
    requires page == Page([z], Some([2, 1, 97]))
    ensures PageAfter(Resources, [z, a], None, 1) == Some(page) == PageAfter(Resources, [z, a], page.next, 1)
  {
    assert Resource([97]).Encode() == [1, 97] && StorageKey([1, 97]) == [2, 1, 97];
    SmallKeys();
    assert [z, a][0..] == [z, a] && [z, a][..1] == [z];
  }

  /** One resource z and one group a, one per page: the group's cursor leads back to z, so the listing never ends. */
  lemma ResourceListingNeverEnds(s: Store, pages: seq<Page>)
    requires s.entries == [Entry([1, 122], Present([])), Entry([2, 97], Present([]))]
    requires forall b :: s.parses(b)
    ensures s.Valid() && !IsListing(s, Resources, 1, pages)
  {
    var z, a := Found([2, 1, 122], Resource([122]), []), Found([2, 2, 97], ResourceGroup([97]), []);
    var page := Page([z], Some([2, 1, 97]));
    ExampleScan(s, z, a);
    ExamplePage(z, a, page);
    GetPageAt(s, Resources, None, 1);
    GetPageAt(s, Resources, page.next, 1);
    if IsListing(s, Resources, 1, pages) {
      RepeatsForever(s, Resources, 1, page, pages, |pages| - 1);
    }
  }

  lemma SmallKeys()
    ensures Less([2, 1, 122], [2, 2, 97]) && !Less([2, 1, 122], [2, 1, 97])
  {
    LessCommonPrefix([2], [1, 122], [2, 97]);
    LessCommonPrefix([2, 1], [122], [97]);
    var p1: Bytes, p2: Bytes := [2], [2, 1];
    assert p1 + [1, 122] == [2, 1, 122] && p1 + [2, 97] == [2, 2, 97];
    assert p2 + [122] == [2, 1, 122] && p2 + [97] == [2, 1, 97];
  }

  // ---- Page sizes ----

  /** The requested size, or the default, capped at the maximum; zero is refused. */
  function DetermineLimit(requested: Option<nat>, default: nat, max: nat): Option<nat> {
    var limit := requested.GetOr(default);
    if limit == 0 then None else Some(Min(limit, max))
  }

  /** A size is refused exactly when it is zero; otherwise it is the smaller of what was asked for and the maximum. */
  lemma LimitExactlyWhen(requested: Option<nat>, default: nat, max: nat)
    ensures var limit := DetermineLimit(requested, default, max);
      && (limit.None? <==> requested == Some(0) || (requested.None? && default == 0))
      && (limit.Some? ==>
           && limit.value <= max && (requested.Some? ==> limit.value <= requested.value)
           && (limit.value < max ==> limit.value == if requested.Some? then requested.value else default))
  {
  }

  /** A page size that is accepted moves a listing forward unless the maximum is zero. */
  lemma LimitIsPositive(requested: Option<nat>, default: nat, max: nat)
    requires DetermineLimit(requested, default, max).Some?
    ensures DetermineLimit(requested, default, max).value > 0 <==> max > 0
    ensures DetermineLimit(requested, default, max).value <= max
  {
  }

  /** Where a page of transactions starts: as asked, or so that it ends at the tip; past the tip is refused. */
  function ComputeStart(requested: Option<nat>, limit: nat, tip: nat): Option<nat> {
    var start := requested.GetOr(Max(tip - Max(limit - 1, 0), 0));
    if start > tip then None else Some(start)
  }

  /** A start that is asked for is used, unless it is past the tip. */
  lemma StartExactlyWhen(requested: nat, limit: nat, tip: nat)
    ensures requested <= tip ==> ComputeStart(Some(requested), limit, tip) == Some(requested)
    ensures requested > tip ==> ComputeStart(Some(requested), limit, tip).None?
  {
  }

  /** The default page is the last `limit` versions, or all of them if there are fewer. */
  lemma DefaultPageEndsAtTip(limit: nat, tip: nat)
    requires limit > 0
    ensures var start := ComputeStart(None, limit, tip);
      && start.Some? && start.value + Min(limit, tip - start.value + 1) == tip + 1
      && (tip - start.value + 1 < limit ==> start.value == 0)
  {
  }
}
