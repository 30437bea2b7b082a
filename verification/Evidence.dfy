/**
 `SyncObservedSettlements`: merging one observed batch of settlement evidence
 into the stored rows of a payment request.
 */
module Evidence {
  import opened Common
  import opened Text

  datatype Content = Content(
    amountMinor: string,
    confirmations: int,
    blockHeight: Option<int>,
    blockHash: Option<string>,
    canonical: bool,
    metadata: string)

  datatype Row = Row(content: Content, firstSeenAt: int, lastSeenAt: int, updatedAt: int)

  /** One settlement as the chain observer reports it; `metadata` is its canonical text. */
  datatype Settlement = Settlement(
    evidenceRef: string,
    amountMinor: string,
    confirmations: int,
    blockHeight: Option<int>,
    blockHash: Option<string>,
    canonical: bool,
    metadata: string)

  datatype Summary = Summary(canonicalCount: nat, nonCanonicalCount: nat, newlyOrphanedCount: nat)

  type Rows = map<string, Row>

  /** Blank references and blank amounts are skipped. */
  predicate Accepted(s: Settlement) {
    TrimSpace(s.evidenceRef) != "" && TrimSpace(s.amountMinor) != ""
  }

  function RefOf(s: Settlement): string {
    TrimSpace(s.evidenceRef)
  }

  function TrimmedHash(hash: Option<string>): Option<string> {
    if hash.None? || TrimSpace(hash.value) == "" then None else Some(TrimSpace(hash.value))
  }

  function ContentOf(s: Settlement): Content {
    Content(TrimSpace(s.amountMinor), if s.confirmations < 0 then 0 else s.confirmations,
            s.blockHeight, TrimmedHash(s.blockHash), s.canonical, s.metadata)
  }

  // ------------------------------------------------- amounts as the database keeps them

  /** How an amount reads back from its numeric column: "007" comes back as "7". */
  type Numeric = string -> string

  ghost predicate Idempotent(numeric: Numeric) {
    forall text :: numeric(numeric(text)) == numeric(text)
  }

  /** A content as a row keeps it. */
  function Kept(numeric: Numeric, content: Content): Content {
    content.(amountMinor := numeric(content.amountMinor))
  }

  predicate IsKept(numeric: Numeric, content: Content) {
    Kept(numeric, content) == content
  }

  /** Stored rows read back as they are. */
  predicate Normal(numeric: Numeric, rows: Rows) {
    forall r :: r in rows ==> IsKept(numeric, rows[r].content)
  }

  /** The rows so far, and the contents the loop compares with, which it does not read back. */
  datatype Draft = Draft(rows: Rows, existing: map<string, Content>)

  function Contents(rows: Rows): map<string, Content> {
    map r | r in rows :: rows[r].content
  }

  /** Insert, leave alone, or update, for one accepted settlement. */
  function Mention(numeric: Numeric, d: Draft, s: Settlement, now: int): Draft {
    var ref, content := RefOf(s), ContentOf(s);
    if !Accepted(s) then d
    else if ref !in d.existing || ref !in d.rows then
      Draft(d.rows[ref := Row(Kept(numeric, content), now, now, now)], d.existing[ref := content])
    else if d.existing[ref] == content then d
    else
      Draft(d.rows[ref := d.rows[ref].(content := Kept(numeric, content), lastSeenAt := now, updatedAt := now)],
            d.existing[ref := content])
  }

  function MentionAll(numeric: Numeric, rows: Rows, batch: seq<Settlement>, now: int): Draft {
    if |batch| == 0 then Draft(rows, Contents(rows))
    else Mention(numeric, MentionAll(numeric, rows, batch[..|batch| - 1], now), batch[|batch| - 1], now)
  }

  function ObservedRefs(batch: seq<Settlement>): set<string> {
    set s | s in batch && Accepted(s) :: RefOf(s)
  }

  /** The rows an orphaning statement hits: canonical ones the batch does not mention. */
  function Orphans(rows: Rows, observed: set<string>): set<string> {
    set r | r in rows && rows[r].content.canonical && r !in observed
  }

  function Orphan(rows: Rows, observed: set<string>, now: int): Rows {
    map r | r in rows ::
      if r in Orphans(rows, observed)
      then rows[r].(content := rows[r].content.(canonical := false), updatedAt := now)
      else rows[r]
  }

  function SyncRows(numeric: Numeric, rows: Rows, batch: seq<Settlement>, now: int): Rows {
    Orphan(MentionAll(numeric, rows, batch, now).rows, ObservedRefs(batch), now)
  }

  function CanonicalRefs(rows: Rows): set<string> {
    set r | r in rows && rows[r].content.canonical
  }

  function NonCanonicalRefs(rows: Rows): set<string> {
    set r | r in rows && !rows[r].content.canonical
  }

  function SummaryOf(numeric: Numeric, rows: Rows, batch: seq<Settlement>, now: int): Summary {
    var synced := SyncRows(numeric, rows, batch, now);
    Summary(|CanonicalRefs(synced)|, |NonCanonicalRefs(synced)|,
            |Orphans(MentionAll(numeric, rows, batch, now).rows, ObservedRefs(batch))|)
  }

  // ------------------------------------------------- what a sync amounts to

  /** What the batch says last about a reference. */
  function LastMention(batch: seq<Settlement>, ref: string): Option<Content> {
    if |batch| == 0 then None else
      var s := batch[|batch| - 1];
      if Accepted(s) && RefOf(s) == ref then Some(ContentOf(s)) else LastMention(batch[..|batch| - 1], ref)
  }

  lemma ObservedRefsSnoc(batch: seq<Settlement>)
    requires |batch| > 0
    ensures var s := batch[|batch| - 1];
            ObservedRefs(batch) == ObservedRefs(batch[..|batch| - 1]) + (if Accepted(s) then {RefOf(s)} else {})
  {
    var front, s := batch[..|batch| - 1], batch[|batch| - 1];
    assert batch == front + [s];
  }

  /** Rows and comparison contents cover the same references, and agree up to reading back. */
  predicate Agrees(numeric: Numeric, d: Draft) {
    d.rows.Keys == d.existing.Keys && forall r :: r in d.rows ==> d.rows[r].content == Kept(numeric, d.existing[r])
  }

  lemma MentionAgrees(numeric: Numeric, d: Draft, s: Settlement, now: int)
    requires Agrees(numeric, d)
    ensures Agrees(numeric, Mention(numeric, d, s, now))
  {
  }

  /** What one more settlement does to the draft. */
  lemma MentionRow(numeric: Numeric, d: Draft, s: Settlement, now: int)
    requires d.rows.Keys == d.existing.Keys
    ensures var after := Mention(numeric, d, s, now);
            && after.rows.Keys == d.rows.Keys + (if Accepted(s) then {RefOf(s)} else {})
            && (Accepted(s) ==> after.existing[RefOf(s)] == ContentOf(s))
            && (forall r :: r in d.rows && !(Accepted(s) && r == RefOf(s)) ==>
                  after.rows[r] == d.rows[r] && after.existing[r] == d.existing[r])
  {
  }

  lemma MentionFirstSeen(numeric: Numeric, d: Draft, s: Settlement, now: int, r: string)
    requires d.rows.Keys == d.existing.Keys && r in Mention(numeric, d, s, now).rows
    ensures Mention(numeric, d, s, now).rows[r].firstSeenAt == if r in d.rows then d.rows[r].firstSeenAt else now
  {
  }

  lemma LastMentionSnoc(batch: seq<Settlement>)
    requires |batch| > 0
    ensures var s := batch[|batch| - 1];
            forall r :: LastMention(batch, r) ==
              if Accepted(s) && r == RefOf(s) then Some(ContentOf(s)) else LastMention(batch[..|batch| - 1], r)
  {
  }

  /** Exactly the observed references are mentioned. */
  lemma {:induction false} ObservedIsMentioned(batch: seq<Settlement>)
    ensures forall r :: LastMention(batch, r).Some? <==> r in ObservedRefs(batch)
  {
    if |batch| == 0 {
    } else {
      ObservedIsMentioned(batch[..|batch| - 1]);
      ObservedRefsSnoc(batch);
      LastMentionSnoc(batch);
    }
  }

  lemma {:induction false} MentionAllAgrees(numeric: Numeric, rows: Rows, batch: seq<Settlement>, now: int)
    requires Normal(numeric, rows)
    ensures Agrees(numeric, MentionAll(numeric, rows, batch, now))
  {
    if |batch| == 0 {
    } else {
      var front := batch[..|batch| - 1];
      MentionAllAgrees(numeric, rows, front, now);
      MentionAgrees(numeric, MentionAll(numeric, rows, front, now), batch[|batch| - 1], now);
    }
  }

  lemma MentionKeys(numeric: Numeric, d: Draft, s: Settlement, now: int, refs: set<string>)
    requires d.rows.Keys == d.existing.Keys == refs
    ensures var after := Mention(numeric, d, s, now);
            after.rows.Keys == after.existing.Keys == refs + (if Accepted(s) then {RefOf(s)} else {})
  {
    MentionRow(numeric, d, s, now);
  }

  lemma {:induction false} MentionAllKeys(numeric: Numeric, rows: Rows, batch: seq<Settlement>, now: int)
    ensures var after := MentionAll(numeric, rows, batch, now);
            after.rows.Keys == after.existing.Keys == rows.Keys + ObservedRefs(batch)
  {
    if |batch| == 0 {
      assert ObservedRefs(batch) == {};
    } else {
      var front, s := batch[..|batch| - 1], batch[|batch| - 1];
      MentionAllKeys(numeric, rows, front, now);
      ObservedRefsSnoc(batch);
      MentionKeys(numeric, MentionAll(numeric, rows, front, now), s, now, rows.Keys + ObservedRefs(front));
      var added := if Accepted(s) then {RefOf(s)} else {};
      assert rows.Keys + ObservedRefs(front) + added == rows.Keys + (ObservedRefs(front) + added);
    }
  }

  lemma {:induction false} FirstSeenKept(numeric: Numeric, rows: Rows, batch: seq<Settlement>, now: int, r: string)
    requires r in MentionAll(numeric, rows, batch, now).rows
    ensures MentionAll(numeric, rows, batch, now).rows[r].firstSeenAt == if r in rows then rows[r].firstSeenAt else now
  {
    if |batch| == 0 {
    } else {
      var front := batch[..|batch| - 1];
      var d := MentionAll(numeric, rows, front, now);
      MentionAllKeys(numeric, rows, front, now);
      MentionFirstSeen(numeric, d, batch[|batch| - 1], now, r);
      if r in d.rows { FirstSeenKept(numeric, rows, front, now, r); }
    }
  }

  /** A row as the batch leaves it: its last mention as kept, or untouched. */
  predicate LeftBy(numeric: Numeric, rows: Rows, after: Rows, mention: Option<Content>, r: string)
    requires r in after
  {
    match mention
    case Some(content) => after[r].content == Kept(numeric, content)
    case None => r in rows && after[r] == rows[r]
  }

  lemma {:induction false} MentionAllContents(numeric: Numeric, rows: Rows, batch: seq<Settlement>, now: int)
    requires Normal(numeric, rows)
    ensures var after := MentionAll(numeric, rows, batch, now);
            forall r :: r in after.rows ==> LeftBy(numeric, rows, after.rows, LastMention(batch, r), r)
  {
    if |batch| == 0 {
    } else {
      var front, s := batch[..|batch| - 1], batch[|batch| - 1];
      MentionAllContents(numeric, rows, front, now);
      MentionAllAgrees(numeric, rows, batch, now);
      MentionAllKeys(numeric, rows, front, now);
      LastMentionSnoc(batch);
      MentionRow(numeric, MentionAll(numeric, rows, front, now), s, now);
    }
  }

  /** Mentioned rows carry their last mention as kept; the others are untouched. */
  lemma MentionAllRows(numeric: Numeric, rows: Rows, batch: seq<Settlement>, now: int)
    requires Normal(numeric, rows)
    ensures var after := MentionAll(numeric, rows, batch, now).rows;
            && after.Keys == rows.Keys + ObservedRefs(batch)
            && (forall r :: r in after ==> LeftBy(numeric, rows, after, LastMention(batch, r), r))
            && (forall r :: r in after ==>
                  after[r].firstSeenAt == if r in rows then rows[r].firstSeenAt else now)
    ensures forall r :: LastMention(batch, r).Some? <==> r in ObservedRefs(batch)
  {
    MentionAllKeys(numeric, rows, batch, now);
    MentionAllContents(numeric, rows, batch, now);
    ObservedIsMentioned(batch);
    forall r | r in MentionAll(numeric, rows, batch, now).rows
      ensures MentionAll(numeric, rows, batch, now).rows[r].firstSeenAt == if r in rows then rows[r].firstSeenAt else now
    {
      FirstSeenKept(numeric, rows, batch, now, r);
    }
  }

  /**
   After a sync the references are the stored and the observed ones; an
   observed row keeps its last mention, a row left out is no longer canonical
   and otherwise unchanged, first-seen times survive, and amounts are in the
   form the database reads back.
   */
  lemma SyncResult(numeric: Numeric, rows: Rows, batch: seq<Settlement>, now: int)
    requires Idempotent(numeric) && Normal(numeric, rows)
    ensures var after := SyncRows(numeric, rows, batch, now);
            && after.Keys == rows.Keys + ObservedRefs(batch)
            && (forall r :: r in after ==>
                  match LastMention(batch, r)
                  case Some(content) => after[r].content == Kept(numeric, content)
                  case None => r in rows && after[r].content == rows[r].content.(canonical := false))
            && (forall r :: r in after ==>
                  (after[r].content.canonical <==>
                     LastMention(batch, r).Some? && LastMention(batch, r).value.canonical))
            && (forall r :: r in after ==>
                  after[r].firstSeenAt == if r in rows then rows[r].firstSeenAt else now)
            && Normal(numeric, after)
  {
    MentionAllRows(numeric, rows, batch, now);
    var after := SyncRows(numeric, rows, batch, now);
    forall r | r in after
      ensures IsKept(numeric, after[r].content)
    {
      assert LeftBy(numeric, rows, MentionAll(numeric, rows, batch, now).rows, LastMention(batch, r), r);
    }
  }

  /** Position `i` holds the last settlement of the batch that names the reference and an amount. */
  predicate LastNamed(batch: seq<Settlement>, ref: string, i: nat) {
    && i < |batch| && ref != ""
    && TrimSpace(batch[i].evidenceRef) == ref && TrimSpace(batch[i].amountMinor) != ""
    && forall j :: i < j < |batch| && TrimSpace(batch[j].evidenceRef) == ref ==> TrimSpace(batch[j].amountMinor) == ""
  }

  lemma {:induction false} LastNamedIsLastMention(batch: seq<Settlement>, ref: string, i: nat)
    requires LastNamed(batch, ref, i)
    ensures LastMention(batch, ref) == Some(ContentOf(batch[i]))
  {
    if i == |batch| - 1 {
    } else {
      assert TrimSpace(batch[|batch| - 1].evidenceRef) == ref ==> TrimSpace(batch[|batch| - 1].amountMinor) == "";
      LastNamedIsLastMention(batch[..|batch| - 1], ref, i);
    }
  }

  /** What the row of an observed reference holds, field by field. */
  lemma SyncedRow(numeric: Numeric, rows: Rows, batch: seq<Settlement>, now: int, ref: string, i: nat)
    requires Idempotent(numeric) && Normal(numeric, rows) && LastNamed(batch, ref, i)
    ensures var after, s := SyncRows(numeric, rows, batch, now), batch[i];
            && ref in after
            && after[ref].content.amountMinor == numeric(TrimSpace(s.amountMinor))
            && after[ref].content.confirmations >= 0
            && (s.confirmations >= 0 ==> after[ref].content.confirmations == s.confirmations)
            && (s.confirmations < 0 ==> after[ref].content.confirmations == 0)
            && after[ref].content.blockHeight == s.blockHeight
            && (after[ref].content.blockHash.None? <==> s.blockHash.None? || TrimSpace(s.blockHash.value) == "")
            && (after[ref].content.blockHash.Some? ==> after[ref].content.blockHash.value == TrimSpace(s.blockHash.value))
            && after[ref].content.canonical == s.canonical
            && after[ref].content.metadata == s.metadata
            && after[ref].firstSeenAt == if ref in rows then rows[ref].firstSeenAt else now
  {
    SyncResult(numeric, rows, batch, now);
    LastNamedIsLastMention(batch, ref, i);
    ObservedIsMentioned(batch);
  }

  lemma {:induction false} UnnamedIsNotMentioned(batch: seq<Settlement>, ref: string)
    requires ref != "" ==> forall s :: s in batch && TrimSpace(s.evidenceRef) == ref ==> TrimSpace(s.amountMinor) == ""
    ensures LastMention(batch, ref) == None
  {
    if |batch| == 0 {
    } else {
      assert batch[|batch| - 1] in batch;
      UnnamedIsNotMentioned(batch[..|batch| - 1], ref);
    }
  }

  /** A reference the batch does not name gets no row; one it no longer names is orphaned and keeps everything else. */
  lemma UnnamedRow(numeric: Numeric, rows: Rows, batch: seq<Settlement>, now: int, ref: string)
    requires Idempotent(numeric) && Normal(numeric, rows)
    requires ref != "" ==> forall s :: s in batch && TrimSpace(s.evidenceRef) == ref ==> TrimSpace(s.amountMinor) == ""
    ensures var after := SyncRows(numeric, rows, batch, now);
            && (ref in after <==> ref in rows)
            && (ref in rows ==>
                  after[ref] == if rows[ref].content.canonical
                                then rows[ref].(content := rows[ref].content.(canonical := false), updatedAt := now)
                                else rows[ref])
  {
    UnnamedIsNotMentioned(batch, ref);
    ObservedIsMentioned(batch);
    MentionAllRows(numeric, rows, batch, now);
    var mentioned := MentionAll(numeric, rows, batch, now).rows;
    if ref in mentioned {
      assert LeftBy(numeric, rows, mentioned, LastMention(batch, ref), ref);
    }
  }

  /**
   The summary: newly orphaned rows are the previously canonical ones the batch
   omits, and canonical and non-canonical rows make up all rows.
   */
  lemma SyncSummary(numeric: Numeric, rows: Rows, batch: seq<Settlement>, now: int)
    requires Normal(numeric, rows)
    ensures var s := SummaryOf(numeric, rows, batch, now);
            && s.newlyOrphanedCount == |CanonicalRefs(rows) - ObservedRefs(batch)|
            && s.canonicalCount + s.nonCanonicalCount == |SyncRows(numeric, rows, batch, now)|
  {
    MentionAllRows(numeric, rows, batch, now);
    var after := MentionAll(numeric, rows, batch, now).rows;
    forall r | r in rows && r !in ObservedRefs(batch)
      ensures after[r] == rows[r]
    {
      assert LeftBy(numeric, rows, after, LastMention(batch, r), r);
    }
    OrphansAreLost(rows, after, ObservedRefs(batch));
    CountsAddUp(SyncRows(numeric, rows, batch, now));
  }

  lemma OrphansAreLost(before: Rows, after: Rows, observed: set<string>)
    requires after.Keys == before.Keys + observed
    requires forall r :: r in before && r !in observed ==> after[r] == before[r]
    ensures Orphans(after, observed) == CanonicalRefs(before) - observed
  {
  }

  lemma CountsAddUp(rows: Rows)
    ensures |CanonicalRefs(rows)| + |NonCanonicalRefs(rows)| == |rows|
  {
    assert CanonicalRefs(rows) + NonCanonicalRefs(rows) == rows.Keys;
    assert CanonicalRefs(rows) !! NonCanonicalRefs(rows);
  }

  // ---------------------------------------------------------- repeating a batch

  /** Repeating a batch, at any later time, changes no content and orphans nothing. */
  lemma SyncTwice(numeric: Numeric, rows: Rows, batch: seq<Settlement>, now: int, later: int)
    requires Idempotent(numeric) && Normal(numeric, rows)
    ensures var once := SyncRows(numeric, rows, batch, now);
            && Contents(SyncRows(numeric, once, batch, later)) == Contents(once)
            && SummaryOf(numeric, once, batch, later).newlyOrphanedCount == 0
  {
    var once := SyncRows(numeric, rows, batch, now);
    SyncResult(numeric, rows, batch, now);
    ObservedIsMentioned(batch);
    MentionAllRows(numeric, once, batch, later);
    var mentioned := MentionAll(numeric, once, batch, later).rows;
    assert mentioned.Keys == once.Keys;
    forall r | r in once
      ensures mentioned[r].content == once[r].content && (r !in ObservedRefs(batch) ==> !mentioned[r].content.canonical)
    {
      assert LeftBy(numeric, once, mentioned, LastMention(batch, r), r);
    }
    NothingToOrphan(mentioned, ObservedRefs(batch), later);
  }

  lemma NothingToOrphan(rows: Rows, observed: set<string>, now: int)
    requires forall r :: r in rows && r !in observed ==> !rows[r].content.canonical
    ensures Orphans(rows, observed) == {} && Orphan(rows, observed, now) == rows
  {
  }

  /** A batch in which every reference is mentioned with one content only. */
  predicate Consistent(batch: seq<Settlement>) {
    forall s, t :: s in batch && t in batch && Accepted(s) && Accepted(t) && RefOf(s) == RefOf(t) ==>
      ContentOf(s) == ContentOf(t)
  }

  /** Every amount of a batch is written the way the database reads it back. */
  predicate AmountsNormal(numeric: Numeric, batch: seq<Settlement>) {
    forall s :: s in batch && Accepted(s) ==> IsKept(numeric, ContentOf(s))
  }

  /** Every mention of `ref` in the batch says `content`. */
  predicate AlwaysSays(batch: seq<Settlement>, ref: string, content: Content) {
    forall s :: s in batch && Accepted(s) && RefOf(s) == ref ==> ContentOf(s) == content
  }

  /**
   How one reference stands in a draft when all its mentions, if any so far, say
   `c`: its row is left alone if it reads back as `c`, and otherwise written and stamped.
   */
  predicate Stands(numeric: Numeric, rows: Rows, d: Draft, mentioned: bool, now: int, ref: string, c: Content) {
    if ref in rows && (rows[ref].content == c || !mentioned)
    then ref in d.rows && ref in d.existing && d.rows[ref] == rows[ref] && d.existing[ref] == rows[ref].content
    else if !mentioned then ref !in d.rows && ref !in d.existing
    else ref in d.rows && ref in d.existing && d.existing[ref] == c && d.rows[ref].content == Kept(numeric, c)
         && d.rows[ref].lastSeenAt == now && d.rows[ref].updatedAt == now
  }

  lemma MentionStands(numeric: Numeric, rows: Rows, d: Draft, mentioned: bool, s: Settlement, now: int,
                      ref: string, c: Content)
    requires Stands(numeric, rows, d, mentioned, now, ref, c)
    requires Accepted(s) && RefOf(s) == ref ==> ContentOf(s) == c
    ensures Stands(numeric, rows, Mention(numeric, d, s, now), mentioned || (Accepted(s) && RefOf(s) == ref), now, ref, c)
  {
  }

  lemma {:induction false} OneContent(numeric: Numeric, rows: Rows, batch: seq<Settlement>, now: int, ref: string, c: Content)
    requires AlwaysSays(batch, ref, c)
    ensures Stands(numeric, rows, MentionAll(numeric, rows, batch, now), LastMention(batch, ref).Some?, now, ref, c)
  {
    if |batch| == 0 {
    } else {
      var front, s := batch[..|batch| - 1], batch[|batch| - 1];
      assert batch == front + [s];
      OneContent(numeric, rows, front, now, ref, c);
      MentionStands(numeric, rows, MentionAll(numeric, rows, front, now), LastMention(front, ref).Some?, s, now, ref, c);
    }
  }

  /** A row is stamped exactly when what the batch always says of it is not what it held. */
  lemma SyncedStamps(numeric: Numeric, rows: Rows, batch: seq<Settlement>, now: int, s: Settlement)
    requires Idempotent(numeric) && Normal(numeric, rows)
    requires s in batch && Accepted(s) && AlwaysSays(batch, RefOf(s), ContentOf(s))
    ensures var after, ref := SyncRows(numeric, rows, batch, now), RefOf(s);
            && ref in after
            && (ref in rows && rows[ref].content == ContentOf(s) ==> after[ref] == rows[ref])
            && (ref in rows && rows[ref].content != ContentOf(s) ==>
                  after[ref] == Row(Kept(numeric, ContentOf(s)), rows[ref].firstSeenAt, now, now))
            && (ref !in rows ==> after[ref] == Row(Kept(numeric, ContentOf(s)), now, now, now))
  {
    ObservedIsMentioned(batch);
    OneContent(numeric, rows, batch, now, RefOf(s), ContentOf(s));
    MentionAllKeys(numeric, rows, batch, now);
    FirstSeenKept(numeric, rows, batch, now, RefOf(s));
  }

  /** The settlement a last mention comes from. */
  lemma {:induction false} LastSettlement(batch: seq<Settlement>, ref: string) returns (s: Settlement)
    requires LastMention(batch, ref).Some?
    ensures s in batch && Accepted(s) && RefOf(s) == ref && LastMention(batch, ref) == Some(ContentOf(s))
  {
    s := batch[|batch| - 1];
    if !(Accepted(s) && RefOf(s) == ref) {
      s := LastSettlement(batch[..|batch| - 1], ref);
    }
  }

  /** One row after a consistent batch is synced again. */
  lemma RowAgain(numeric: Numeric, rows: Rows, batch: seq<Settlement>, now: int, later: int, ref: string)
    requires Idempotent(numeric) && Normal(numeric, rows) && Consistent(batch)
    requires ref in SyncRows(numeric, rows, batch, now)
    ensures var once := SyncRows(numeric, rows, batch, now);
            var d := MentionAll(numeric, once, batch, later);
            && ref in d.rows
            && (match LastMention(batch, ref)
                case None => d.rows[ref] == once[ref]
                case Some(c) =>
                  if IsKept(numeric, c) then d.rows[ref] == once[ref]
                  else once[ref].lastSeenAt == now && d.rows[ref] == once[ref].(lastSeenAt := later, updatedAt := later))
            && (LastMention(batch, ref).Some? && !IsKept(numeric, LastMention(batch, ref).value) ==>
                  once[ref].updatedAt == now)
  {
    SyncResult(numeric, rows, batch, now);
    ObservedIsMentioned(batch);
    var once := SyncRows(numeric, rows, batch, now);
    MentionAllRows(numeric, once, batch, later);
    if LastMention(batch, ref).None? {
      assert LeftBy(numeric, once, MentionAll(numeric, once, batch, later).rows, LastMention(batch, ref), ref);
    } else {
      var s := LastSettlement(batch, ref);
      OneContent(numeric, rows, batch, now, ref, ContentOf(s));
      OneContent(numeric, once, batch, later, ref, ContentOf(s));
      assert LeftBy(numeric, once, MentionAll(numeric, once, batch, later).rows, LastMention(batch, ref), ref);
    }
  }

  /**
   Repeating a consistent batch at another time leaves every row as it was,
   time stamps included, exactly when its amounts are written the way the
   database reads them back.
   */
  lemma ConsistentSyncTwice(numeric: Numeric, rows: Rows, batch: seq<Settlement>, now: int, later: int)
    requires Idempotent(numeric) && Normal(numeric, rows) && Consistent(batch) && now != later
    ensures var once := SyncRows(numeric, rows, batch, now);
            SyncRows(numeric, once, batch, later) == once <==> AmountsNormal(numeric, batch)
  {
    var once := SyncRows(numeric, rows, batch, now);
    var d := MentionAll(numeric, once, batch, later);
    SyncTwice(numeric, rows, batch, now, later);
    SyncedAgainRows(numeric, rows, batch, now, later);
    if AmountsNormal(numeric, batch) {
      forall r | r in once
        ensures d.rows[r] == once[r]
      {
        RowAgain(numeric, rows, batch, now, later, r);
        if LastMention(batch, r).Some? { var s := LastSettlement(batch, r); }
      }
    } else {
      var s :| s in batch && Accepted(s) && !IsKept(numeric, ContentOf(s));
      MentionedLast(batch, s);
      assert RefOf(s) in once;
      RowAgain(numeric, rows, batch, now, later, RefOf(s));
      assert d.rows[RefOf(s)] != once[RefOf(s)];
    }
  }

  /** The second sync orphans nothing, so it ends with the rows its mentions leave. */
  lemma SyncedAgainRows(numeric: Numeric, rows: Rows, batch: seq<Settlement>, now: int, later: int)
    requires Idempotent(numeric) && Normal(numeric, rows)
    ensures var once := SyncRows(numeric, rows, batch, now);
            && ObservedRefs(batch) <= once.Keys
            && MentionAll(numeric, once, batch, later).rows.Keys == once.Keys
            && SyncRows(numeric, once, batch, later) == MentionAll(numeric, once, batch, later).rows
  {
    var once := SyncRows(numeric, rows, batch, now);
    SyncResult(numeric, rows, batch, now);
    ObservedIsMentioned(batch);
    MentionAllRows(numeric, once, batch, later);
    var mentioned := MentionAll(numeric, once, batch, later).rows;
    forall r | r in mentioned && r !in ObservedRefs(batch)
      ensures !mentioned[r].content.canonical
    {
      assert LeftBy(numeric, once, mentioned, LastMention(batch, r), r);
    }
    NothingToOrphan(mentioned, ObservedRefs(batch), later);
  }

  lemma MentionedLast(batch: seq<Settlement>, s: Settlement)
    requires Consistent(batch) && s in batch && Accepted(s)
    ensures RefOf(s) in ObservedRefs(batch) && LastMention(batch, RefOf(s)) == Some(ContentOf(s))
  {
    ObservedIsMentioned(batch);
    var t := LastSettlement(batch, RefOf(s));
  }

  // -------------------------------------------------------------- the method

  class SettlementTable {
    const numeric: Numeric
    var rows: Rows

    constructor (numeric: Numeric)
      ensures this.numeric == numeric && rows == map[]
    {
      this.numeric := numeric;
      rows := map[];
    }

    /** One transaction: merge the batch, orphan what it omits, count what is left. */
    method SyncObservedSettlements(batch: seq<Settlement>, now: int) returns (summary: Summary)
      modifies `rows
      ensures rows == SyncRows(numeric, old(rows), batch, now)
      ensures summary == SummaryOf(numeric, old(rows), batch, now)
    {
      ghost var before := rows;
      var existingByRef := Contents(rows);
      var observedRefs: seq<string> := [];
      for n := 0 to |batch|
        invariant Draft(rows, existingByRef) == MentionAll(numeric, before, batch[..n], now)
        invariant rows.Keys == existingByRef.Keys
        invariant forall r :: r in observedRefs <==> r in ObservedRefs(batch[..n])
      {
        ObservedRefsSnoc(batch[..n + 1]);
        assert batch[..n + 1][..n] == batch[..n];
        existingByRef, observedRefs := MergeOne(batch[n], now, existingByRef, observedRefs);
      }
      assert batch[..|batch|] == batch;
      summary := OrphanOthers(ObservedRefs(batch), observedRefs, now);
    }

    /** Insert, leave alone, or update; the contents read at the start keep up with what was written. */
    method MergeOne(s: Settlement, now: int, existing: map<string, Content>, refs: seq<string>)
      returns (existingByRef: map<string, Content>, observedRefs: seq<string>)
      requires rows.Keys == existing.Keys
      modifies `rows
      ensures Draft(rows, existingByRef) == Mention(numeric, Draft(old(rows), existing), s, now)
      ensures rows.Keys == existingByRef.Keys
      ensures forall r :: r in observedRefs <==> r in refs || (Accepted(s) && r == RefOf(s))
    {
      existingByRef, observedRefs := existing, refs;
      if Accepted(s) {
        var ref, next := RefOf(s), ContentOf(s);
        if ref !in observedRefs {
          observedRefs := observedRefs + [ref];
        }
        if ref !in existingByRef {
          rows := rows[ref := Row(Kept(numeric, next), now, now, now)];
          existingByRef := existingByRef[ref := next];
        } else if existingByRef[ref] != next {
          rows := rows[ref := rows[ref].(content := Kept(numeric, next), lastSeenAt := now, updatedAt := now)];
          existingByRef := existingByRef[ref := next];
        }
      }
    }

    method OrphanOthers(ghost observed: set<string>, observedRefs: seq<string>, now: int) returns (summary: Summary)
      requires forall r :: r in observedRefs <==> r in observed
      modifies `rows
      ensures rows == Orphan(old(rows), observed, now)
      ensures summary == Summary(|CanonicalRefs(rows)|, |NonCanonicalRefs(rows)|, |Orphans(old(rows), observed)|)
    {
      var orphans := if |observedRefs| == 0
                     then set r | r in rows && rows[r].content.canonical
                     else set r | r in rows && rows[r].content.canonical && r !in observedRefs;
      assert orphans == Orphans(rows, observed);
      rows := map r | r in rows ::
        if r in orphans then rows[r].(content := rows[r].content.(canonical := false), updatedAt := now) else rows[r];
      summary := Summary(|CanonicalRefs(rows)|, |NonCanonicalRefs(rows)|, |orphans|);
    }
  }
}
