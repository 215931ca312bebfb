/** What the walk reports when an edited id moves a row of a clean log past others. */
module ChainMoves {
  import opened Bytes
  import opened Canonical
  import opened Chain
  import opened ChainSecurity
  import opened ChainTampering
  import opened Encodings
  import opened Wrappers

  const G: Digest := GENESIS_CHAIN_HASH

  /** The first piece of evidence that is real. */
  function FirstBreak(H: HashFunction, found: seq<Evidence>): Evidence
    decreases |found|, H
  {
    if found == [] then NoEvidence else if Breaks(H, found[0]) then found[0] else FirstBreak(H, found[1..])
  }

  lemma {:induction false} FirstBreakBreaks(H: HashFunction, found: seq<Evidence>, i: nat)
    requires i < |found| && Breaks(H, found[i])
    ensures Breaks(H, FirstBreak(H, found))
    decreases |found|
  {
    if !Breaks(H, found[0]) { FirstBreakBreaks(H, found[1..], i - 1); }
  }

  // ---------------------------------------------------------------------------
  // A clean block behind another baseline
  // ---------------------------------------------------------------------------

  lemma {:induction false} LastIds(kept: seq<AuditRow>, gone: seq<AuditRow>)
    requires kept != [] && gone != [] && ValidTable(kept + gone)
    ensures kept[|kept| - 1].id != (kept + gone)[|kept + gone| - 1].id
  {
    assert (kept + gone)[|kept| - 1] == kept[|kept| - 1];
  }

  /** The head of a clean log is not the head of an extension of it. */
  lemma {:induction false} HeadsApart(H: HashFunction, kept: seq<AuditRow>, gone: seq<AuditRow>, next: AuditRow)
    requires gone != [] && ValidTable(kept + gone) && Clean(H, G, kept) && Clean(H, G, kept + gone)
    requires LastHash(G, kept) == LastHash(G, kept + gone)
    ensures Breaks(H, GapEvidence(G, kept, gone, next))
  {
    HeadPreimageHashes(H, G, kept + gone);
    if kept == [] {
      assert kept + gone == gone;
    } else {
      HeadPreimageHashes(H, G, kept);
      LastIds(kept, gone);
      HeadsDiffer(H, G, kept, kept + gone);
    }
  }

  /** A block that is clean behind one of two such heads, walked from the other: its first row is
      reported and no other. */
  lemma {:induction false} Junction(H: HashFunction, kept: seq<AuditRow>, gone: seq<AuditRow>, block: seq<AuditRow>, base: Bytes, own: Bytes)
    requires gone != [] && block != [] && ValidTable(kept + gone)
    requires Clean(H, G, kept) && Clean(H, G, kept + gone) && Clean(H, own, block)
    requires (base == LastHash(G, kept) && own == LastHash(G, kept + gone))
          || (own == LastHash(G, kept) && base == LastHash(G, kept + gone))
    ensures FullWalk(H, base, block) == NextReport(H, base, block[0]) || Breaks(H, GapEvidence(G, kept, gone, block[0]))
  {
    if base == own {
      HeadsApart(H, kept, gone, block[0]);
    } else {
      SuccessorCheck(H, own, base, block);
    }
  }

  /** What the walk makes of the moved row from a baseline it was not chained to. */
  function MovedReport(H: HashFunction, base: Bytes, r: AuditRow): Walk {
    match RowBytes(r)
    case Err(ValueError) => Walk([ChainMismatch(r.id, CanonicalisationError, Hex(StoredHash(r)))], None)
    case Err(TypeError) => Walk([], Some(TypeError))
    case Ok(bytes) => Walk([ChainMismatch(r.id, Digest(Hex(H(base + bytes))), Hex(StoredHash(r)))], None)
  }

  lemma {:induction false} ContentsDiffer(base: Bytes, own: Bytes, r: AuditRow, moved: AuditRow)
    requires |base| == |own| && RowBytes(r).Ok? && RowBytes(moved).Ok? && moved.id != r.id
    ensures base + Content(moved) != own + Content(r)
  {
    if base + Content(moved) == own + Content(r) {
      SplitPrefix(base, Content(moved), own, Content(r));
      ContentBinds(moved, r);
    }
  }

  /** The check of a moved row from any digest. */
  lemma {:induction false} LinkOfMoved(H: HashFunction, base: Bytes, moved: AuditRow)
    requires ToBytes(moved.chainHash).Ok? && |base| == 32
    requires RowBytes(moved).Ok? ==> H(base + Content(moved)) != StoredHash(moved)
    ensures EditReport(CheckRow(H, base, moved), Walk([], None)) == MovedReport(H, base, moved)
  {
  }

  lemma {:induction false} MovedCheck(H: HashFunction, base: Bytes, own: Bytes, r: AuditRow, moved: AuditRow)
    requires CheckRow(H, own, r).Passes? && |base| == 32 && moved.chainHash == r.chainHash && moved.id != r.id
    ensures || EditReport(CheckRow(H, base, moved), Walk([], None)) == MovedReport(H, base, moved)
            || Breaks(H, Collision(base + Content(moved), own + Content(r)))
  {
    PassMeans(H, own, r);
    if RowBytes(moved).Ok? && H(base + Content(moved)) == StoredHash(moved) {
      ContentsDiffer(base, own, r, moved);
    } else {
      LinkOfMoved(H, base, moved);
    }
  }

  lemma {:induction false} EditSequel(c: RowCheck, rest: Walk)
    ensures EditReport(c, rest) == Sequel(EditReport(c, Walk([], None)), rest)
  {
    match c
    case Raises(_) =>
    case Passes => SequelStep([], rest, rest);
    case Fails(m) => assert [m] + [] == [m];
  }

  lemma {:induction false} Regroup(front: seq<AuditRow>, block: seq<AuditRow>, last: seq<AuditRow>, rest: seq<AuditRow>)
    ensures front + block + last + rest == front + (block + (last + rest))
  {
  }

  lemma {:induction false} WalkBlockAndRow(H: HashFunction, base: Bytes, block: seq<AuditRow>, r: AuditRow, rest: seq<AuditRow>)
    ensures FullWalk(H, base, block + ([r] + rest)) ==
            Sequel(FullWalk(H, base, block), EditReport(CheckRow(H, LastHash(base, block), r), FullWalk(H, StoredHash(r), rest)))
  {
    Compose(H, base, block, [r] + rest);
    WalkCons(H, LastHash(base, block), r, rest);
  }

  lemma {:induction false} WalkRowAndBlock(H: HashFunction, base: Bytes, r: AuditRow, block: seq<AuditRow>, rest: seq<AuditRow>)
    ensures FullWalk(H, base, [r] + (block + rest)) ==
            EditReport(CheckRow(H, base, r),
                       Sequel(FullWalk(H, StoredHash(r), block), FullWalk(H, LastHash(StoredHash(r), block), rest)))
  {
    WalkCons(H, base, r, block + rest);
    Compose(H, StoredHash(r), block, rest);
  }

  /** The walk over a clean front, a block, one more row and a last block. */
  lemma {:induction false} WalkInPieces(H: HashFunction, front: seq<AuditRow>, block: seq<AuditRow>, r: AuditRow, rest: seq<AuditRow>)
    requires Clean(H, G, front)
    ensures FullWalk(H, G, front + block + [r] + rest) ==
            Sequel(FullWalk(H, LastHash(G, front), block),
                   Sequel(EditReport(CheckRow(H, LastHash(G, front + block), r), Walk([], None)),
                          FullWalk(H, StoredHash(r), rest)))
  {
    Regroup(front, block, [r], rest);
    DropClean(H, G, front, block + ([r] + rest));
    LastHashAppend(G, front, block);
    WalkBlockAndRow(H, LastHash(G, front), block, r, rest);
    EditSequel(CheckRow(H, LastHash(G, front + block), r), FullWalk(H, StoredHash(r), rest));
  }

  // ---------------------------------------------------------------------------
  // Moved to a later place
  // ---------------------------------------------------------------------------

  function LaterEvidence(H: HashFunction, kept: seq<AuditRow>, r: AuditRow, passed: seq<AuditRow>, rest: seq<AuditRow>,
                         moved: AuditRow): Evidence
    requires passed != []
  {
    FirstBreak(H, [
      GapEvidence(G, kept, [r], passed[0]),
      Collision(LastHash(G, kept + passed) + Content(moved), LastHash(G, kept) + Content(r)),
      if rest == [] then NoEvidence else GapEvidence(G, kept + [r], passed, rest[0])])
  }

  lemma {:induction false} PartsAreValid(a: seq<AuditRow>, b: seq<AuditRow>)
    requires ValidTable(a + b)
    ensures ValidTable(a)
  {
    forall i, j | 0 <= i < j < |a| ensures a[i].id < a[j].id {
      assert (a + b)[i] == a[i] && (a + b)[j] == a[j];
    }
  }

  /** A non-empty clean block leaves a digest. */
  lemma {:induction false} BlockWidth(H: HashFunction, base: Bytes, block: seq<AuditRow>)
    requires block != [] && Clean(H, base, block)
    ensures forall other :: |LastHash(other, block)| == 32
  {
    LastLink(H, base, block);
    PassMeans(H, LastHash(base, block[..|block| - 1]), block[|block| - 1]);
  }

  lemma {:induction false} LaterPieces(H: HashFunction, kept: seq<AuditRow>, r: AuditRow, passed: seq<AuditRow>, rest: seq<AuditRow>)
    requires passed != []
    requires ValidTable(kept + [r] + passed + rest) && Clean(H, G, kept + [r] + passed + rest)
    ensures Clean(H, G, kept) && Clean(H, G, kept + [r]) && Clean(H, G, kept + [r] + passed)
    ensures ValidTable(kept + [r]) && ValidTable(kept + [r] + passed)
    ensures Clean(H, LastHash(G, kept + [r]), passed) && Clean(H, LastHash(G, kept + [r] + passed), rest)
    ensures CheckRow(H, LastHash(G, kept), r).Passes? && LastHash(G, kept + [r]) == StoredHash(r)
    ensures |LastHash(G, kept + passed)| == 32
  {
    var two := kept + [r];
    CleanSplit(H, G, two + passed, rest);
    CleanSplit(H, G, two, passed);
    CleanSplit(H, G, kept, [r]);
    CleanStep(H, LastHash(G, kept), [r]);
    PartsAreValid(two + passed, rest);
    PartsAreValid(two, passed);
    LastHashAppend(G, kept, [r]);
    LastHashAppend(G, kept, passed);
    BlockWidth(H, LastHash(G, two), passed);
  }

  /** Giving a row a greater id that moves it behind `passed` makes the walk report the first row it
      passed, then the moved row, then the row behind it if any, and no other. */
  lemma {:induction false} MovedLater(H: HashFunction, kept: seq<AuditRow>, r: AuditRow, passed: seq<AuditRow>,
                                      rest: seq<AuditRow>, moved: AuditRow)
    requires passed != [] && moved.chainHash == r.chainHash && moved.id != r.id
    requires ValidTable(kept + [r] + passed + rest) && Clean(H, G, kept + [r] + passed + rest)
    ensures || FullWalk(H, G, kept + passed + [moved] + rest) ==
               Sequel(NextReport(H, LastHash(G, kept), passed[0]),
                      Sequel(MovedReport(H, LastHash(G, kept + passed), moved), SuccessorReport(H, StoredHash(r), rest)))
            || Breaks(H, LaterEvidence(H, kept, r, passed, rest, moved))
  {
    var own, all := LastHash(G, kept), kept + [r] + passed;
    var found := [
      GapEvidence(G, kept, [r], passed[0]),
      Collision(LastHash(G, kept + passed) + Content(moved), own + Content(r)),
      if rest == [] then NoEvidence else GapEvidence(G, kept + [r], passed, rest[0])];
    LaterPieces(H, kept, r, passed, rest);
    WalkInPieces(H, kept, passed, moved, rest);
    Junction(H, kept, [r], passed, own, LastHash(G, kept + [r]));
    MovedCheck(H, LastHash(G, kept + passed), own, r, moved);
    if rest != [] {
      Junction(H, kept + [r], passed, rest, StoredHash(r), LastHash(G, all));
    }
    if i: nat :| i < |found| && Breaks(H, found[i]) {
      FirstBreakBreaks(H, found, i);
    } else {
      assert !Breaks(H, found[0]) && !Breaks(H, found[1]) && !Breaks(H, found[2]);
    }
  }

  // ---------------------------------------------------------------------------
  // Moved to an earlier place
  // ---------------------------------------------------------------------------

  function EarlierEvidence(H: HashFunction, kept: seq<AuditRow>, passed: seq<AuditRow>, r: AuditRow, rest: seq<AuditRow>,
                           moved: AuditRow): Evidence
    requires passed != []
  {
    FirstBreak(H, [
      Collision(LastHash(G, kept) + Content(moved), LastHash(G, kept + passed) + Content(r)),
      GapEvidence(G, kept, passed + [r], passed[0]),
      if rest == [] then NoEvidence else GapEvidence(G, kept + passed, [r], rest[0])])
  }

  lemma {:induction false} WalkMovedFirst(H: HashFunction, kept: seq<AuditRow>, moved: AuditRow, passed: seq<AuditRow>, rest: seq<AuditRow>)
    requires Clean(H, G, kept) && passed != []
    ensures FullWalk(H, G, kept + [moved] + passed + rest) ==
            Sequel(EditReport(CheckRow(H, LastHash(G, kept), moved), Walk([], None)),
                   Sequel(FullWalk(H, StoredHash(moved), passed), FullWalk(H, LastHash(G, kept + passed), rest)))
  {
    var h := LastHash(G, kept);
    Regroup(kept, [moved], passed, rest);
    DropClean(H, G, kept, [moved] + (passed + rest));
    WalkRowAndBlock(H, h, moved, passed, rest);
    EditSequel(CheckRow(H, h, moved),
               Sequel(FullWalk(H, StoredHash(moved), passed), FullWalk(H, LastHash(StoredHash(moved), passed), rest)));
    LastHashAppend(G, kept, passed);
  }

  lemma {:induction false} EarlierPieces(H: HashFunction, kept: seq<AuditRow>, passed: seq<AuditRow>, r: AuditRow, rest: seq<AuditRow>)
    requires passed != []
    requires ValidTable(kept + passed + [r] + rest) && Clean(H, G, kept + passed + [r] + rest)
    ensures Clean(H, G, kept) && Clean(H, G, kept + passed) && Clean(H, G, kept + passed + [r])
    ensures ValidTable(kept + passed) && ValidTable(kept + passed + [r])
    ensures Clean(H, LastHash(G, kept), passed) && Clean(H, StoredHash(r), rest)
    ensures CheckRow(H, LastHash(G, kept + passed), r).Passes? && LastHash(G, kept + passed + [r]) == StoredHash(r)
    ensures |LastHash(G, kept)| == 32
  {
    var two := kept + passed;
    CleanSplit(H, G, two + [r], rest);
    CleanSplit(H, G, two, [r]);
    CleanSplit(H, G, kept, passed);
    CleanStep(H, LastHash(G, two), [r]);
    PartsAreValid(two + [r], rest);
    PartsAreValid(two, [r]);
    LastHashAppend(G, two, [r]);
    BaselineWidth(H, G, kept);
  }

  /** Giving a row a smaller id that moves it before `passed` makes the walk report the moved row, then
      the first row it passed, then the row that stood behind it if any, and no other. */
  lemma {:induction false} MovedEarlier(H: HashFunction, kept: seq<AuditRow>, passed: seq<AuditRow>, r: AuditRow,
                                        rest: seq<AuditRow>, moved: AuditRow)
    requires passed != [] && moved.chainHash == r.chainHash && moved.id != r.id
    requires ValidTable(kept + passed + [r] + rest) && Clean(H, G, kept + passed + [r] + rest)
    ensures || FullWalk(H, G, kept + [moved] + passed + rest) ==
               Sequel(MovedReport(H, LastHash(G, kept), moved),
                      Sequel(NextReport(H, StoredHash(r), passed[0]),
                             SuccessorReport(H, LastHash(G, kept + passed), rest)))
            || Breaks(H, EarlierEvidence(H, kept, passed, r, rest, moved))
  {
    var h, g := LastHash(G, kept), LastHash(G, kept + passed);
    var found := [
      Collision(h + Content(moved), g + Content(r)),
      GapEvidence(G, kept, passed + [r], passed[0]),
      if rest == [] then NoEvidence else GapEvidence(G, kept + passed, [r], rest[0])];
    EarlierPieces(H, kept, passed, r, rest);
    WalkMovedFirst(H, kept, moved, passed, rest);
    MovedCheck(H, h, g, r, moved);
    assert kept + (passed + [r]) == kept + passed + [r];
    Junction(H, kept, passed + [r], passed, StoredHash(r), h);
    if rest != [] {
      Junction(H, kept + passed, [r], rest, g, StoredHash(r));
    }
    LastHashAppend(G, kept, passed);
    if i: nat :| i < |found| && Breaks(H, found[i]) {
      FirstBreakBreaks(H, found, i);
    } else {
      assert !Breaks(H, found[0]) && !Breaks(H, found[1]) && !Breaks(H, found[2]);
    }
  }
}
