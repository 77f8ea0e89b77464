/** The checks on a source's pages, the keys that tell its items apart, and the delay before a retry. */
module ConnectorPages {
  import opened Results
  import opened Text
  import opened Connector
  import Base64Url
  import Utf8

  datatype Acl = Acl(principalType: string, principalRef: string, permission: string)

  /** An item with its classification by rank and its access list. */
  datatype SourceItem = SourceItem(item: Item, classification: nat, acl: seq<Acl>)

  // ----- the page check -----

  const MAX_PAGE: nat := 500
  const MAX_CURSOR_BYTES: nat := 8192

  /** The conditions on a page as a whole; an empty cursor counts as none. */
  predicate PageFits(count: nat, nextCursor: Option<string>, hasMore: bool) {
    && count <= MAX_PAGE && hasMore == (nextCursor.Some? && nextCursor.value != "")
    && |Utf8.Encode(if nextCursor.Some? then nextCursor.value else "")| <= MAX_CURSOR_BYTES
  }

  predicate AclFits(a: Acl) {
    a.principalType in ["user", "group", "domain", "public"] && a.permission == "read" &&
      1 <= Units(a.principalRef) <= 512
  }

  predicate ItemFits(i: SourceItem, maximum: nat) {
    && 1 <= Units(i.item.externalId) <= 512 && 1 <= Units(i.item.externalVersion) <= 256
    && 1 <= |i.acl| <= 1000 && i.classification <= maximum && forall k :: 0 <= k < |i.acl| ==> AclFits(i.acl[k])
  }

  // ----- the same, told without the program's constants -----

  /** At most 500 items, a cursor exactly when there is more, and no more than 8192 bytes of it. */
  predicate PageIsSound(count: nat, nextCursor: Option<string>, hasMore: bool) {
    && count <= 500
    && (hasMore <==> nextCursor !in {None, Some("")})
    && (nextCursor.Some? ==> |Utf8.Encode(nextCursor.value)| <= 8192)
  }

  predicate ItemIsSound(i: SourceItem, maximum: nat) {
    && i.item.externalId != "" && Units(i.item.externalId) <= 512
    && i.item.externalVersion != "" && Units(i.item.externalVersion) <= 256
    && i.acl != [] && |i.acl| <= 1000 && i.classification <= maximum
    && forall a :: a in i.acl ==>
         && (a.principalType == "user" || a.principalType == "group" || a.principalType == "domain" ||
             a.principalType == "public")
         && a.permission == "read" && a.principalRef != "" && Units(a.principalRef) <= 512
  }

  lemma {:induction false} PageExactly(count: nat, nextCursor: Option<string>, hasMore: bool)
    ensures PageFits(count, nextCursor, hasMore) <==> PageIsSound(count, nextCursor, hasMore)
  {
    Utf8.EncodeNothing();
  }

  lemma {:induction false} ItemExactly(i: SourceItem, maximum: nat)
    ensures ItemFits(i, maximum) <==> ItemIsSound(i, maximum)
  {
    hide AclFits;
    forall a: Acl ensures AclFits(a) <==> (a.principalType in {"user", "group", "domain", "public"} &&
                                      a.permission == "read" && a.principalRef != "" && Units(a.principalRef) <= 512)
    {
      AclExactly(a);
    }
    assert (forall k :: 0 <= k < |i.acl| ==> AclFits(i.acl[k])) <==> forall a :: a in i.acl ==> AclFits(a);
  }

  lemma {:induction false} AclExactly(a: Acl)
    ensures AclFits(a) <==> a.principalType in {"user", "group", "domain", "public"} &&
                            a.permission == "read" && a.principalRef != "" && Units(a.principalRef) <= 512
  {
    var types := ["user", "group", "domain", "public"];
    assert types[0] == "user" && types[1] == "group" && types[2] == "domain" && types[3] == "public";
  }

  datatype PageError = PageInvalid | ItemDenied

  /** validatePage; None is acceptance. */
  method ValidatePage(items: seq<SourceItem>, nextCursor: Option<string>, hasMore: bool, maximum: nat)
    returns (error: Option<PageError>)
    ensures error == Some(PageInvalid) <==> !PageIsSound(|items|, nextCursor, hasMore)
    ensures error == Some(ItemDenied) <==>
            PageIsSound(|items|, nextCursor, hasMore) && exists i :: 0 <= i < |items| && !ItemIsSound(items[i], maximum)
    ensures error == None <==>
            PageIsSound(|items|, nextCursor, hasMore) && forall i :: 0 <= i < |items| ==> ItemIsSound(items[i], maximum)
  {
    hide PageFits, ItemFits, ItemIsSound;
    PageExactly(|items|, nextCursor, hasMore);
    forall i | 0 <= i < |items| ensures ItemFits(items[i], maximum) <==> ItemIsSound(items[i], maximum) {
      ItemExactly(items[i], maximum);
    }
    if !PageFits(|items|, nextCursor, hasMore) { return Some(PageInvalid); }
    for i := 0 to |items|
      invariant forall k :: 0 <= k < i ==> ItemFits(items[k], maximum)
    {
      if !ItemFits(items[i], maximum) { return Some(ItemDenied); }
    }
    return None;
  }

  // ----- listed pages pass it -----

  function Power10(k: nat): nat { if k == 0 then 1 else 10 * Power10(k - 1) }

  lemma {:induction false} DecimalIsShort(n: nat, k: nat)
    requires 1 <= k && n < Power10(k)
    ensures |Decimal(n)| <= k
  {
    if n >= 10 { DecimalIsShort(n / 10, k - 1); }
  }

  lemma {:induction false} BytesAreFew(s: string)
    ensures |Utf8.Encode(s)| <= 4 * |s|
  {
    if s != "" { BytesAreFew(s[1..]); }
  }

  lemma {:induction false} DigitsAreFew(b: seq<Utf8.Byte>)
    ensures |Base64Url.Encode(b)| <= 2 * |b|
    decreases |b|
  {
    hide Base64Url.Digit;
    if |b| > 2 { DigitsAreFew(b[3..]); }
  }

  /** Every page that the deterministic source lists passes the check on the page as a whole. */
  lemma {:induction false} ListedPageFits(items: seq<Item>, cursor: Option<string>, pageSize: int)
    requires |items| < Power10(16)
    ensures var page := ListPage(items, cursor, pageSize);
            page.Some? ==> PageFits(|page.value.items|, page.value.nextCursor, page.value.hasMore)
  {
    hide Decimal, Base64Url.Encode, Utf8.Encode, OffsetOf, Power10;
    var page := ListPage(items, cursor, pageSize);
    Utf8.EncodeNothing();
    if page.Some? && page.value.hasMore {
      var next := OffsetOf(cursor) + |page.value.items|;
      DecimalIsShort(next, 16);
      BytesAreFew(Decimal(next));
      DigitsAreFew(Utf8.Encode(Decimal(next)));
      BytesAreFew(CursorAt(next));
    }
  }

  // ----- the dedupe key -----

  const NUL: char := '\0'

  datatype Origin = Origin(tenantId: string, workspaceId: string, sourceId: string, adapterKey: string)

  /** The text that dedupeKey hashes. */
  function KeyText(o: Origin, i: Item): string {
    Join([NUL], Parts(o, i))
  }

  predicate OriginIsNulFree(o: Origin) {
    '\0' !in o.tenantId && '\0' !in o.workspaceId && '\0' !in o.sourceId && '\0' !in o.adapterKey
  }

  /** A member of the item's key holds a NUL. */
  predicate KeyHoldsNul(i: Item) {
    '\0' in i.externalId || '\0' in i.externalVersion || '\0' in CheckText(i)
  }

  function CheckText(i: Item): string { if i.checksum.Some? then i.checksum.value else "" }

  predicate NulFree(o: Origin, i: Item) { OriginIsNulFree(o) && !KeyHoldsNul(i) }

  // How often a character occurs tells texts that hold the separator from those that do not.

  function Occurrences(s: string, c: char): nat {
    if s == "" then 0 else (if s[0] == c then 1 else 0) + Occurrences(s[1..], c)
  }

  lemma {:induction false} OccurrencesAppend(a: string, b: string, c: char)
    ensures Occurrences(a + b, c) == Occurrences(a, c) + Occurrences(b, c)
  {
    if a == "" {
      assert a + b == b;
    } else {
      TailOfAppend(a, b);
      OccurrencesAppend(a[1..], b, c);
    }
  }

  lemma {:induction false} NoOccurrence(s: string, c: char)
    ensures Occurrences(s, c) == 0 <==> c !in s
  {
    if s != "" { NoOccurrence(s[1..], c); }
  }

  function Total(texts: seq<string>, c: char): nat {
    if texts == [] then 0 else Total(texts[..|texts| - 1], c) + Occurrences(texts[|texts| - 1], c)
  }

  lemma {:induction false} OccurrencesOfJoin(texts: seq<string>, c: char)
    requires texts != []
    ensures Occurrences(Join([c], texts), c) == |texts| - 1 + Total(texts, c)
    decreases |texts|
  {
    hide Occurrences;
    var n := |texts| - 1;
    if n == 0 {
      assert texts[..0] == [];
    } else {
      OccurrencesOfJoin(texts[..n], c);
      OccurrencesAppend(Join([c], texts[..n]), [c] + texts[n], c);
      OccurrencesAppend([c], texts[n], c);
      assert Occurrences([c], c) == 1 by { OneOccurrence(c); }
    }
  }

  lemma {:induction false} OneOccurrence(c: char)
    ensures Occurrences([c], c) == 1
  {
    assert [c][1..] == "";
  }

  lemma {:induction false} NoneInTotal(texts: seq<string>, c: char)
    ensures Total(texts, c) == 0 <==> forall k :: 0 <= k < |texts| ==> c !in texts[k]
    decreases |texts|
  {
    hide Occurrences;
    if texts != [] {
      var n := |texts| - 1;
      NoneInTotal(texts[..n], c);
      NoOccurrence(texts[n], c);
      assert forall k :: 0 <= k < n ==> texts[..n][k] == texts[k];
    }
  }

  function Parts(o: Origin, i: Item): seq<string> {
    [o.tenantId, o.workspaceId, o.sourceId, o.adapterKey] + [i.externalId, i.externalVersion, CheckText(i)]
  }

  /** The hashed text of a NUL-free item is the text of NUL-free items only. */
  lemma {:induction false} NulFreeIsShared(o: Origin, i: Item, p: Origin, j: Item)
    requires NulFree(o, i) && KeyText(o, i) == KeyText(p, j)
    ensures NulFree(p, j)
  {
    hide Occurrences, Total, Join;
    var a, b := Parts(o, i), Parts(p, j);
    OccurrencesOfJoin(a, NUL);
    OccurrencesOfJoin(b, NUL);
    NoneInTotal(a, NUL);
    NoneInTotal(b, NUL);
    assert b[0] == p.tenantId && b[1] == p.workspaceId && b[2] == p.sourceId && b[3] == p.adapterKey;
    assert b[4] == j.externalId && b[5] == j.externalVersion && b[6] == CheckText(j);
  }

  /** For a NUL-free item two hashed texts are equal exactly when origin and key members are. */
  lemma {:induction false} KeyTextExactly(o: Origin, i: Item, p: Origin, j: Item)
    requires NulFree(o, i)
    ensures KeyText(o, i) == KeyText(p, j) <==> o == p && KeyOf(i) == KeyOf(j)
  {
    hide Join;
    var a, b := Parts(o, i), Parts(p, j);
    if KeyText(o, i) == KeyText(p, j) {
      NulFreeIsShared(o, i, p, j);
      JoinIsInjective(NUL, a, b);
      assert a[0] == b[0] && a[1] == b[1] && a[2] == b[2] && a[3] == b[3] && a[4] == b[4] && a[5] == b[5] &&
        a[6] == b[6];
    }
  }

  lemma {:induction false} KeyTextEnds(o: Origin, i: Item)
    ensures var head := [o.tenantId, o.workspaceId, o.sourceId, o.adapterKey];
            KeyText(o, i) ==
            Join([NUL], head) + ([NUL] + ((i.externalId + ([NUL] + i.externalVersion)) + ([NUL] + CheckText(i))))
  {
    hide Join;
    JoinEnds([NUL], [o.tenantId, o.workspaceId, o.sourceId, o.adapterKey], i.externalId, i.externalVersion,
      CheckText(i));
  }

  /** A NUL in the identifier, at any position: what follows it can as well begin the version. */
  lemma {:induction false} NulInId(o: Origin, i: Item, n: nat)
    requires n < |i.externalId| && i.externalId[n] == NUL
    ensures var j := i.(externalId := i.externalId[..n],
                        externalVersion := i.externalId[n + 1..] + ([NUL] + i.externalVersion));
            KeyText(o, i) == KeyText(o, j) && KeyOf(i) != KeyOf(j)
  {
    hide Join, KeyText;
    var left, right := i.externalId[..n], i.externalId[n + 1..];
    var j := i.(externalId := left, externalVersion := right + ([NUL] + i.externalVersion));
    KeyTextEnds(o, i);
    KeyTextEnds(o, j);
    assert i.externalId == left + ([NUL] + right);
    assert i.externalId + ([NUL] + i.externalVersion) == left + ([NUL] + (right + ([NUL] + i.externalVersion)));
    assert |left| != |i.externalId|;
  }

  /** A NUL in the version: what precedes it can as well end the identifier. */
  lemma {:induction false} NulInVersion(o: Origin, i: Item, n: nat)
    requires n < |i.externalVersion| && i.externalVersion[n] == NUL
    ensures var j := i.(externalId := i.externalId + ([NUL] + i.externalVersion[..n]),
                        externalVersion := i.externalVersion[n + 1..]);
            KeyText(o, i) == KeyText(o, j) && KeyOf(i) != KeyOf(j)
  {
    hide Join, KeyText;
    var left, right := i.externalVersion[..n], i.externalVersion[n + 1..];
    var j := i.(externalId := i.externalId + ([NUL] + left), externalVersion := right);
    KeyTextEnds(o, i);
    KeyTextEnds(o, j);
    assert i.externalVersion == left + ([NUL] + right);
    assert i.externalId + ([NUL] + i.externalVersion) == (i.externalId + ([NUL] + left)) + ([NUL] + right);
    assert |right| != |i.externalVersion|;
  }

  /** A NUL in the checksum: what precedes it can as well end the version. */
  lemma {:induction false} NulInChecksum(o: Origin, i: Item, n: nat)
    requires i.checksum.Some? && n < |i.checksum.value| && i.checksum.value[n] == NUL
    ensures var j := i.(externalVersion := i.externalVersion + ([NUL] + i.checksum.value[..n]),
                        checksum := Some(i.checksum.value[n + 1..]));
            KeyText(o, i) == KeyText(o, j) && KeyOf(i) != KeyOf(j)
  {
    hide Join, KeyText;
    var left, right := i.checksum.value[..n], i.checksum.value[n + 1..];
    var j := i.(externalVersion := i.externalVersion + ([NUL] + left), checksum := Some(right));
    KeyTextEnds(o, i);
    KeyTextEnds(o, j);
    assert i.checksum.value == left + ([NUL] + right);
    var x := i.externalId + ([NUL] + i.externalVersion);
    assert x + ([NUL] + (left + ([NUL] + right))) ==
           (i.externalId + ([NUL] + (i.externalVersion + ([NUL] + left)))) + ([NUL] + right);
    assert |right| != |i.checksum.value|;
  }

  /** Something else has the same hashed text. */
  ghost predicate Collides(o: Origin, i: Item) {
    exists p, j :: KeyText(o, i) == KeyText(p, j) && (p != o || KeyOf(j) != KeyOf(i))
  }

  /** With a NUL-free origin an item can be taken for another exactly when its key holds a NUL. */
  lemma {:induction false} CollidesExactly(o: Origin, i: Item)
    requires OriginIsNulFree(o)
    ensures Collides(o, i) <==> KeyHoldsNul(i)
  {
    hide KeyText;
    if Collides(o, i) {
      var p, j :| KeyText(o, i) == KeyText(p, j) && (p != o || KeyOf(j) != KeyOf(i));
      if !KeyHoldsNul(i) { KeyTextExactly(o, i, p, j); }
    }
    if NUL in i.externalId {
      var n :| 0 <= n < |i.externalId| && i.externalId[n] == NUL;
      NulInId(o, i, n);
    } else if NUL in i.externalVersion {
      var n :| 0 <= n < |i.externalVersion| && i.externalVersion[n] == NUL;
      NulInVersion(o, i, n);
    } else if NUL in CheckText(i) {
      var n :| 0 <= n < |i.checksum.value| && i.checksum.value[n] == NUL;
      NulInChecksum(o, i, n);
    }
  }

  lemma {:induction false} JoinEnds(separator: string, head: seq<string>, x: string, y: string, z: string)
    requires head != []
    ensures Join(separator, head + [x, y, z]) ==
            Join(separator, head) + (separator + ((x + (separator + y)) + (separator + z)))
  {
    var all := head + [x, y, z];
    var n := |head|;
    assert all[..n + 2] == head + [x, y] && (head + [x, y])[..n + 1] == head + [x] && (head + [x])[..n] == head;
    assert Join(separator, head + [x]) == Join(separator, head) + (separator + x);
    assert Join(separator, head + [x, y]) == Join(separator, head + [x]) + (separator + y);
    assert Join(separator, all) == Join(separator, head + [x, y]) + (separator + z);
  }

  // ----- the retry delay -----

  function Power2(k: nat): nat { if k == 0 then 1 else 2 * Power2(k - 1) }

  const MAX_DELAY: int := 300000

  function Clamp(random: real): real { if random < 0.0 then 0.0 else if random > 0.999999 then 0.999999 else random }

  function Cap(attempt: nat): int
    requires attempt >= 1
  {
    var cap := 1000 * Power2(attempt - 1);
    if cap < MAX_DELAY then cap else MAX_DELAY
  }

  /** retryDelayMs; None is its error. */
  function RetryDelayMs(attempt: int, random: real, retryAfterSeconds: Option<int>): Option<int> {
    if attempt < 1 || attempt > 8 then None
    else
      var jitter := (Clamp(random) * Cap(attempt) as real).Floor;
      if retryAfterSeconds.None? then Some(jitter)
      else
        var asked := retryAfterSeconds.value * 1000;
        var longer := if jitter > asked then jitter else asked;
        Some(if longer < MAX_DELAY then longer else MAX_DELAY)
  }

  /**
   * The delay is defined for the first eight attempts. On its own it is below a bound that doubles
   * with each attempt; a requested delay raises it, up to five minutes.
   */
  lemma {:induction false} RetryDelayBounds(attempt: int, random: real, retryAfterSeconds: Option<int>)
    ensures var d := RetryDelayMs(attempt, random, retryAfterSeconds);
            && (d.Some? <==> 1 <= attempt <= 8)
            && (d.Some? ==> 0 <= d.value <= MAX_DELAY)
            && (d.Some? && retryAfterSeconds.None? ==> d.value < 1000 * Power2(attempt - 1) <= 128000)
            && (d.Some? && retryAfterSeconds.Some? ==>
                  d.value >= 1000 * retryAfterSeconds.value || d.value == MAX_DELAY)
            && (d.Some? && retryAfterSeconds.Some? ==>
                  d.value >= RetryDelayMs(attempt, random, None).value || d.value == MAX_DELAY)
  {
    if 1 <= attempt <= 8 {
      PowerIsSmall(attempt - 1);
      var cap := Cap(attempt) as real;
      assert 0.0 <= Clamp(random) * cap < cap by { assert Clamp(random) < 1.0; }
    }
  }

  /** The bound before attempt number `attempt`: a second, doubled with each attempt, up to five minutes. */
  function Bound(attempt: nat): int
    requires 1 <= attempt
  {
    if 1000 * Power2(attempt - 1) <= 300000 then 1000 * Power2(attempt - 1) else 300000
  }

  /** The delay, exactly: the part of the bound that the random number says, and at least what was asked for. */
  lemma {:induction false} RetryDelayExactly(attempt: int, random: real, retryAfterSeconds: Option<int>)
    requires 1 <= attempt <= 8
    ensures var part := if random <= 0.0 then 0.0 else if random >= 0.999999 then 0.999999 else random;
            var jitter := RetryDelayMs(attempt, random, None).value;
            && jitter as real <= part * Bound(attempt) as real < jitter as real + 1.0
            && (retryAfterSeconds.Some? ==>
                  var asked := 1000 * retryAfterSeconds.value;
                  RetryDelayMs(attempt, random, retryAfterSeconds) ==
                  Some(if jitter >= 300000 || asked >= 300000 then 300000
                       else if asked >= jitter then asked else jitter))
  {
    hide Power2;
  }

  lemma {:induction false} PowerIsSmall(k: nat)
    requires k <= 7
    ensures 1 <= Power2(k) <= 128
  {
    if k > 0 { PowersGrow(k, 7); }
    assert Power2(7) == 128;
  }

  lemma {:induction false} PowersGrow(j: nat, k: nat)
    requires j <= k
    ensures 1 <= Power2(j) <= Power2(k)
    decreases k
  {
    if j < k { PowersGrow(j, k - 1); } else if j > 0 { PowersGrow(j - 1, k - 1); }
  }

  /** Whenever a failed synchronization backs off, its next attempt has a delay. */
  lemma {:induction false} BackoffHasDelay(
    c: Connection, code: string, retryable: bool, nextRetryAt: Option<int>, random: real, after: Option<int>)
    ensures var failed := FailSync(c, code, retryable, nextRetryAt);
            failed.Ok? && failed.value.mode == Backoff ==> RetryDelayMs(failed.value.attempt, random, after).Some?
  {
    hide Cap;
    RetryDelayBounds(c.attempt + 1, random, after);
  }
}
