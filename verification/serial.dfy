/**
 * Connection threads around server_file_mutex (src/server.c): what they do to the files while
 * holding it is the same as running their critical sections one at a time.
 */
module Serial {
  import opened Bytes
  import opened FileTree

  datatype Act =
    | Lock
    | Unlock
    | Did(op: Op)
    | Saw(path: Path, node: Option<Node>)

  // ---- One thread --------------------------------------------------------------------------------------

  predicate Holding(acts: seq<Act>) {
    if acts == [] then false
    else match acts[|acts| - 1]
      case Lock => true
      case Unlock => false
      case _ => Holding(acts[..|acts| - 1])
  }

  /** Locks only when not holding, unlocks and changes files only when holding; may look at any time. */
  ghost predicate Disciplined(acts: seq<Act>) {
    acts == [] ||
    var init := acts[..|acts| - 1];
    Disciplined(init) &&
    match acts[|acts| - 1]
    case Lock => !Holding(init)
    case Unlock => Holding(init)
    case Did(_) => Holding(init)
    case Saw(_, _) => true
  }

  /** How often the mutex was taken. */
  function Sections(acts: seq<Act>): nat {
    if acts == [] then 0 else Sections(acts[..|acts| - 1]) + if acts[|acts| - 1].Lock? then 1 else 0
  }

  /** The acts inside critical sections, their Lock and Unlock included. */
  function LockedPart(acts: seq<Act>): seq<Act> {
    if acts == [] then []
    else
      var init, last := acts[..|acts| - 1], acts[|acts| - 1];
      if last.Lock? || Holding(init) then LockedPart(init) + [last] else LockedPart(init)
  }

  /** The acts of the latest critical section, from its Lock on. */
  function LatestSection(acts: seq<Act>): seq<Act> {
    if acts == [] then []
    else
      var init, last := acts[..|acts| - 1], acts[|acts| - 1];
      if last.Lock? then [last] else if Holding(init) then LatestSection(init) + [last] else LatestSection(init)
  }

  function Unlocks(acts: seq<Act>): nat {
    if acts == [] then 0 else Unlocks(acts[..|acts| - 1]) + if acts[|acts| - 1].Unlock? then 1 else 0
  }

  /** Every time the mutex is taken it is given back once, and whoever never takes it only looks. */
  lemma {:induction false} LocksAreReleased(acts: seq<Act>)
    requires Disciplined(acts)
    ensures Sections(acts) == Unlocks(acts) + if Holding(acts) then 1 else 0
    ensures Sections(acts) == 0 ==> forall a :: a in acts ==> a.Saw?
  {
    if acts != [] {
      LocksAreReleased(acts[..|acts| - 1]);
    }
  }

  // ---- Acts on files -----------------------------------------------------------------------------------------

  predicate Fits(fs: Files, act: Act) {
    match act
    case Did(op) => Succeeds(op, fs)
    case Saw(p, node) => Get(fs, p) == node
    case _ => true
  }

  function Next(fs: Files, act: Act): Files
    requires Fits(fs, act)
  {
    if act.Did? then Effect(act.op, fs) else fs
  }

  /** The files after `acts`; None if a change was impossible or a look saw something else. */
  function Play(fs: Files, acts: seq<Act>): Option<Files> {
    if acts == [] then Some(fs)
    else
      var before := Play(fs, acts[..|acts| - 1]);
      if before.Some? && Fits(before.value, acts[|acts| - 1]) then Some(Next(before.value, acts[|acts| - 1])) else None
  }

  // ---- Interleavings ---------------------------------------------------------------------------------------------

  datatype Step = Step(thread: nat, act: Act)

  function Of(run: seq<Step>, t: nat): seq<Act> {
    if run == [] then []
    else
      var acts := Of(run[..|run| - 1], t);
      if run[|run| - 1].thread == t then acts + [run[|run| - 1].act] else acts
  }

  /** The owner of the mutex. */
  function Holder(run: seq<Step>): Option<nat> {
    if run == [] then None
    else match run[|run| - 1].act
      case Lock => Some(run[|run| - 1].thread)
      case Unlock => None
      case _ => Holder(run[..|run| - 1])
  }

  /** Any interleaving the files and the mutex allow: the mutex is given out only while it is free. */
  function Interleave(fs: Files, run: seq<Step>): Option<Files> {
    if run == [] then Some(fs)
    else
      var init, last := run[..|run| - 1], run[|run| - 1];
      var before := Interleave(fs, init);
      if before.Some? && Fits(before.value, last.act) && (last.act.Lock? ==> Holder(init).None?)
      then Some(Next(before.value, last.act)) else None
  }

  datatype Section = Section(thread: nat, acts: seq<Act>)

  /** The critical sections of a run in the order in which the mutex was acquired. */
  function SectionsOf(run: seq<Step>): seq<Section> {
    if run == [] then []
    else
      var init, last := run[..|run| - 1], run[|run| - 1];
      var before := SectionsOf(init);
      if last.act.Lock? then before + [Section(last.thread, [Lock])]
      else if Holder(init) == Some(last.thread) && before != []
      then before[..|before| - 1] + [Section(last.thread, before[|before| - 1].acts + [last.act])]
      else before
  }

  /** Running whole sections one after the other. */
  function Serially(fs: Files, sections: seq<Section>): Option<Files> {
    if sections == [] then Some(fs)
    else
      var before := Serially(fs, sections[..|sections| - 1]);
      if before.Some? then Play(before.value, sections[|sections| - 1].acts) else None
  }

  /** All that a thread did in its sections. */
  function SectionsBy(sections: seq<Section>, t: nat): seq<Act> {
    if sections == [] then []
    else
      var before, last := SectionsBy(sections[..|sections| - 1], t), sections[|sections| - 1];
      if last.thread == t then before + last.acts else before
  }

  predicate Open(s: Section) {
    s.acts != [] && s.acts[0].Lock? && forall i :: 0 < i < |s.acts| ==> s.acts[i].Did? || s.acts[i].Saw?
  }

  /** From one Lock to the one Unlock that follows it. */
  predicate Whole(s: Section) {
    |s.acts| > 1 && s.acts[|s.acts| - 1].Unlock? && Open(Section(s.thread, s.acts[..|s.acts| - 1]))
  }

  // ---- Serial equivalence -----------------------------------------------------------------------------------------

  ghost predicate AllDisciplined(run: seq<Step>) { forall t: nat :: Disciplined(Of(run, t)) }

  lemma OfNext(init: seq<Step>, last: Step, t: nat)
    ensures Of(init + [last], t) == if last.thread == t then Of(init, t) + [last.act] else Of(init, t)
  {
    assert (init + [last])[..|init|] == init;
  }

  lemma DisciplinedBefore(init: seq<Step>, last: Step)
    requires AllDisciplined(init + [last])
    ensures AllDisciplined(init)
  {
    forall t: nat
      ensures Disciplined(Of(init, t))
    {
      OfNext(init, last, t);
      assert Disciplined(Of(init + [last], t));
      assert (Of(init, t) + [last.act])[..|Of(init, t)|] == Of(init, t);
    }
  }

  /** The mutex belongs to the one thread inside a critical section. */
  lemma {:induction false} HolderHolds(fs: Files, run: seq<Step>, t: nat)
    requires Interleave(fs, run).Some? && AllDisciplined(run)
    ensures Holding(Of(run, t)) <==> Holder(run) == Some(t)
    decreases |run|
  {
    if run != [] {
      var init, last := run[..|run| - 1], run[|run| - 1];
      assert run == init + [last];
      DisciplinedBefore(init, last);
      OfNext(init, last, t);
      OfNext(init, last, last.thread);
      HolderHolds(fs, init, t);
      HolderHolds(fs, init, last.thread);
      assert Disciplined(Of(run, last.thread));
      assert (Of(init, last.thread) + [last.act])[..|Of(init, last.thread)|] == Of(init, last.thread);
    }
  }

  /** All sections but possibly the last are whole; the last is open while somebody holds the mutex. */
  ghost predicate Shaped(run: seq<Step>) {
    var s := SectionsOf(run);
    && (forall i :: 0 <= i < |s| - 1 ==> Whole(s[i]))
    && (Holder(run).None? ==> (s != [] ==> Whole(s[|s| - 1])))
    && (Holder(run).Some? ==> s != [] && Open(s[|s| - 1]) && s[|s| - 1].thread == Holder(run).value)
  }

  lemma {:induction false} SectionsShaped(fs: Files, run: seq<Step>)
    requires Interleave(fs, run).Some? && AllDisciplined(run)
    ensures Shaped(run)
  {
    if run != [] {
      hide *;
      var init, last := run[..|run| - 1], run[|run| - 1];
      assert run == init + [last];
      MayStep(fs, init, last);
      SectionsShaped(fs, init);
      ShapedNext(init, last);
    }
  }

  lemma ShapedNext(init: seq<Step>, last: Step)
    requires Shaped(init)
    requires last.act.Unlock? || last.act.Did? ==> Holder(init) == Some(last.thread)
    requires last.act.Lock? ==> Holder(init).None?
    ensures Shaped(init + [last])
  {
    hide SectionsOf, Open, Whole;
    assert (init + [last])[..|init|] == init;
    SectionsNext(init, last);
    if Holder(init) == Some(last.thread) {
      SectionKeepsShape(SectionsOf(init)[|SectionsOf(init)| - 1], last.act);
    }
    assert Open(Section(last.thread, [Lock])) by { OpensWithLock(last.thread); }
  }

  lemma OpensWithLock(t: nat)
    ensures Open(Section(t, [Lock]))
  {
  }

  lemma SectionKeepsShape(s: Section, act: Act)
    requires Open(s)
    ensures act.Unlock? ==> Whole(Section(s.thread, s.acts + [act]))
    ensures act.Did? || act.Saw? ==> Open(Section(s.thread, s.acts + [act]))
  {
    assert (s.acts + [act])[..|s.acts|] == s.acts;
  }

  /** Only the owner of the mutex gives it back or changes files. */
  lemma MayStep(fs: Files, init: seq<Step>, last: Step)
    requires Interleave(fs, init + [last]).Some? && AllDisciplined(init + [last])
    ensures Interleave(fs, init).Some? && AllDisciplined(init)
    ensures last.act.Unlock? || last.act.Did? ==> Holder(init) == Some(last.thread)
    ensures last.act.Lock? ==> Holder(init).None?
  {
    assert (init + [last])[..|init|] == init;
    DisciplinedBefore(init, last);
    HolderHolds(fs, init, last.thread);
    OfNext(init, last, last.thread);
    assert Disciplined(Of(init + [last], last.thread));
    assert (Of(init, last.thread) + [last.act])[..|Of(init, last.thread)|] == Of(init, last.thread);
  }

  lemma PlayNext(fs: Files, acts: seq<Act>, last: Act)
    ensures Play(fs, acts + [last]) ==
      if Play(fs, acts).Some? && Fits(Play(fs, acts).value, last) then Some(Next(Play(fs, acts).value, last)) else None
  {
    assert (acts + [last])[..|acts|] == acts;
  }

  /** Extending the last section by one act extends the serial run by that act. */
  lemma SeriallyNext(fs: Files, before: seq<Section>, last: Section, act: Act)
    ensures Serially(fs, before + [Section(last.thread, last.acts + [act])]) ==
      var done := Serially(fs, before + [last]);
      if done.Some? && Fits(done.value, act) then Some(Next(done.value, act)) else None
  {
    hide Play, Fits, Next;
    assert (before + [last])[..|before|] == before;
    assert (before + [Section(last.thread, last.acts + [act])])[..|before|] == before;
    if Serially(fs, before).Some? {
      PlayNext(Serially(fs, before).value, last.acts, act);
    }
  }

  lemma SeriallyOpens(fs: Files, before: seq<Section>, t: nat)
    ensures Serially(fs, before + [Section(t, [Lock])]) == Serially(fs, before)
  {
    assert (before + [Section(t, [Lock])])[..|before|] == before;
    assert [Lock][..0] == [];
    if Serially(fs, before).Some? {
      PlayNext(Serially(fs, before).value, [], Lock);
      assert [] + [Lock] == [Lock];
    }
  }

  /**
   * In every interleaving, the files are those of running the critical sections one at a time in
   * the order of acquiring the mutex, and in that serial run every act is possible and sees what
   * it saw.
   */
  lemma {:induction false} SerialEquivalence(fs: Files, run: seq<Step>)
    requires Interleave(fs, run).Some? && AllDisciplined(run)
    ensures Serially(fs, SectionsOf(run)) == Interleave(fs, run)
    ensures Shaped(run)
  {
    hide Disciplined, Play, Fits, Next, Open, Whole;
    SectionsShaped(fs, run);
    if run != [] {
      var init, last := run[..|run| - 1], run[|run| - 1];
      assert run == init + [last];
      MayStep(fs, init, last);
      SerialEquivalence(fs, init);
      var before := SectionsOf(init);
      if last.act.Lock? {
        SeriallyOpens(fs, before, last.thread);
        assert Next(Interleave(fs, init).value, last.act) ==
          Interleave(fs, init).value by { NextOfQuiet(Interleave(fs, init).value, last.act); }
      } else if Holder(init) == Some(last.thread) {
        var open := before[|before| - 1];
        assert before == before[..|before| - 1] + [open];
        SeriallyNext(fs, before[..|before| - 1], open, last.act);
      } else {
        NextOfQuiet(Interleave(fs, init).value, last.act);
      }
    }
  }

  lemma NextOfQuiet(fs: Files, act: Act)
    requires !act.Did? && Fits(fs, act)
    ensures Next(fs, act) == fs
  {
  }

  lemma LockedNext(acts: seq<Act>, last: Act)
    ensures LockedPart(acts + [last]) == if last.Lock? || Holding(acts) then LockedPart(acts) + [last]
      else LockedPart(acts)
  {
    assert (acts + [last])[..|acts|] == acts;
  }

  lemma SectionsNext(init: seq<Step>, last: Step)
    ensures var before := SectionsOf(init);
      SectionsOf(init + [last]) ==
      if last.act.Lock? then before + [Section(last.thread, [Lock])]
      else if Holder(init) == Some(last.thread) && before != []
      then before[..|before| - 1] + [Section(last.thread, before[|before| - 1].acts + [last.act])]
      else before
  {
    hide Holder;
    assert (init + [last])[..|init|] == init;
  }

  lemma SectionGrows(before: seq<Section>, act: Act, t: nat)
    requires before != []
    ensures var open := before[|before| - 1];
      SectionsBy(before[..|before| - 1] + [Section(open.thread, open.acts + [act])], t) ==
      if open.thread == t then SectionsBy(before, t) + [act] else SectionsBy(before, t)
  {
    var open := before[|before| - 1];
    SectionsByNext(before[..|before| - 1], Section(open.thread, open.acts + [act]), t);
    ConcatAssociative(SectionsBy(before[..|before| - 1], t), open.acts, [act]);
  }

  /** The sections of a thread are, in order, exactly what it did under the mutex. */
  lemma {:induction false} SectionsAreOwn(fs: Files, run: seq<Step>, t: nat)
    requires Interleave(fs, run).Some? && AllDisciplined(run)
    ensures SectionsBy(SectionsOf(run), t) == LockedPart(Of(run, t))
  {
    if run != [] {
      hide *;
      var init, last := run[..|run| - 1], run[|run| - 1];
      assert run == init + [last];
      MayStep(fs, init, last);
      SectionsAreOwn(fs, init, t);
      SectionsShaped(fs, init);
      LastSection(init);
      HolderHolds(fs, init, t);
      OfNext(init, last, t);
      LockedNext(Of(init, t), last.act);
      SectionsNext(init, last);
      var before := SectionsOf(init);
      if last.act.Lock? {
        SectionsByNext(before, Section(last.thread, [Lock]), t);
      } else if Holder(init) == Some(last.thread) {
        SectionGrows(before, last.act, t);
      }
    }
  }

  lemma LastSection(run: seq<Step>)
    requires Shaped(run)
    ensures Holder(run).Some? ==>
      SectionsOf(run) != [] && SectionsOf(run)[|SectionsOf(run)| - 1].thread == Holder(run).value
  {
  }

  lemma SectionsByNext(before: seq<Section>, last: Section, t: nat)
    ensures SectionsBy(before + [last], t) == if last.thread == t then SectionsBy(before, t) + last.acts
      else SectionsBy(before, t)
  {
    assert (before + [last])[..|before|] == before;
  }
}
