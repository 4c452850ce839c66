/** The frames of a stream for which the compressor is told the size before it sees the content. */
module Pledges {
  import opened Basics
  import opened TarHeader
  import opened Framing
  import opened Elements
  import opened Raw
  import opened TarFrames

  /** The next frame too, if it is begun with an element whose size is known: without a minimum, and
      when no frame is open that the element would go into. */
  ghost function Also(done: set<nat>, st: Framer, lim: Limits): set<nat>
  {
    if lim.min == 0 && st.open == [] then done + {|st.closed|} else done
  }

  /** The frames, by number, that the rest of a stream adds to `done`. `st` is what has gone into frames and
      `waiting` what is held for the next entry. Entries that are held are known when the entry they
      wait for is; a run of null blocks is when it ends; an entry with a sparse map is not, nor is
      one that joins the next entry but is not held for it. */
  ghost function Announced(rest: Bytes, ps: ParseState, st: Framer, waiting: Bytes, done: set<nat>, lim: Limits)
    : set<nat>
    decreases |rest|
  {
    if rest == [] then
      if waiting == [] then done else Also(done, st, lim)
    else
      match NextElement(rest, ps)
      case None => done
      case Some(Step(e, next)) =>
        var h: Block, tail, all := rest[..512], rest[|e.bytes|..], waiting + e.bytes;
        var fed := Feed(st, all, lim.max);
        if (if IsNull(h) then e.joins else Held(ps.mem, h, |e.bytes|)) then
          Announced(tail, next, st, all, done, lim)
        else if e.joins then
          Announced(tail, next, fed, [], done, lim)
        else
          var known := if HasSparseExtension(h) then done else Also(done, st, lim);
          Announced(tail, next, EndGroup(fed, lim.min), [], known, lim)
  }

  /** The frames of a whole archive whose sizes are pledged when it is read from standard input. */
  ghost function PledgedFrames(stack: Stack, input: Bytes, lim: Limits): set<nat>
  {
    Announced(input, Fresh(stack), EMPTY, [], {}, lim)
  }

  // --- Where that is every group ---

  /** The frames of groups that are each cut at the maximum. */
  function ByGroup(groups: seq<Bytes>, max: nat): seq<Bytes>
    requires max > 0
    decreases |groups|
  {
    if groups == [] then [] else Blocks(groups[0], max) + ByGroup(groups[1..], max)
  }

  /** The numbers of the first frame of each group, if the frame of the first one is `at`. */
  function Firsts(groups: seq<Bytes>, max: nat, at: nat): set<nat>
    requires max > 0
    decreases |groups|
  {
    if groups == [] then {} else {at} + Firsts(groups[1..], max, at + |Blocks(groups[0], max)|)
  }

  /** Without a minimum a group goes into frames of its own. */
  lemma GroupInFrames(closed: seq<Bytes>, g: Bytes, lim: Limits)
    requires lim.min == 0 && lim.max > 0
    ensures EndGroup(Feed(Framer(closed, []), g, lim.max), lim.min) == Framer(closed + Blocks(g, lim.max), [])
  {
    IsOneGroup(closed, g, lim.max);
  }

  lemma {:induction false} FramesByGroup(closed: seq<Bytes>, groups: seq<Bytes>, lim: Limits)
    requires lim.min == 0 && lim.max > 0
    ensures Finish(FoldGroups(Framer(closed, []), groups, lim)) == closed + ByGroup(groups, lim.max)
    decreases |groups|
  {
    hide Feed, EndGroup, Blocks;
    if groups == [] {
      assert closed + [] == closed;
    } else {
      var own, others := Blocks(groups[0], lim.max), ByGroup(groups[1..], lim.max);
      GroupInFrames(closed, groups[0], lim);
      FramesByGroup(closed + own, groups[1..], lim);
      assert closed + own + others == closed + (own + others);
    }
  }

  /** No entry in the archive has a sparse map, and every one that joins the next is held for it. */
  ghost predicate AllKnown(rest: Bytes, ps: ParseState)
    decreases |rest|
  {
    match NextElement(rest, ps)
    case None => true
    case Some(Step(e, next)) =>
      var h: Block := e.bytes[..512];
      && (IsNull(h) || (!HasSparseExtension(h) && (e.joins ==> Held(ps.mem, h, |e.bytes|))))
      && AllKnown(rest[|e.bytes|..], next)
  }

  /** The groups of the rest of the archive, if `waiting` is the beginning of the first one. */
  ghost function GroupsAfter(waiting: Bytes, es: seq<Element>): seq<Bytes>
  {
    if waiting == [] then Groups(es) else Groups([Element(waiting, true)] + es)
  }

  lemma GroupsCons(e: Element, es: seq<Element>)
    ensures Groups([e] + es) == if e.joins && es != [] then [e.bytes + Groups(es)[0]] + Groups(es)[1..]
                                else [e.bytes] + Groups(es)
  {
    assert ([e] + es)[1..] == es;
  }

  lemma GroupsOfMore(waiting: Bytes, e: Element, es: seq<Element>)
    requires e.bytes != []
    ensures e.joins ==> GroupsAfter(waiting, [e] + es) == GroupsAfter(waiting + e.bytes, es)
    ensures !e.joins ==> GroupsAfter(waiting, [e] + es) == [waiting + e.bytes] + GroupsAfter([], es)
  {
    hide Groups;
    GroupsCons(e, es);
    GroupsCons(Element(waiting, true), [e] + es);
    GroupsCons(Element(waiting + e.bytes, true), es);
    assert [] + e.bytes == e.bytes;
    if e.joins {
      assert e == Element(e.bytes, true);
      if es != [] {
        assert waiting + (e.bytes + Groups(es)[0]) == waiting + e.bytes + Groups(es)[0];
      }
    }
  }

  lemma GroupsAtEnd(waiting: Bytes)
    ensures GroupsAfter(waiting, []) == if waiting == [] then [] else [waiting]
  {
    if waiting != [] {
      assert ([Element(waiting, true)] + [])[1..] == [];
    }
  }

  lemma {:induction false} AnnouncedFirsts(rest: Bytes, ps: ParseState, closed: seq<Bytes>, waiting: Bytes,
                                           done: set<nat>, lim: Limits)
    requires lim.Valid() && lim.min == 0 && ElementsOf(rest, ps).Ok? && AllKnown(rest, ps)
    ensures Announced(rest, ps, Framer(closed, []), waiting, done, lim)
            == done + Firsts(GroupsAfter(waiting, ElementsOf(rest, ps).value), lim.max, |closed|)
    decreases |rest|
  {
    hide Feed, EndGroup, Blocks, IsNull, HasSparseExtension, Held, NextElement, GroupsAfter;
    if rest == [] {
      GroupsAtEnd(waiting);
    } else {
      var step := NextElement(rest, ps).value;
      var e, tail, all := step.element, rest[|step.element.bytes|..], waiting + step.element.bytes;
      var es := ElementsOf(tail, step.next).value;
      NextElementIsPrefix(rest, ps);
      assert e.bytes[..512] == rest[..512];
      GroupsOfMore(waiting, e, es);
      if !IsNull(rest[..512]) {
        HeldJoins(rest, ps);
      }
      if e.joins {
        AnnouncedFirsts(tail, step.next, closed, all, done, lim);
      } else {
        GroupInFrames(closed, all, lim);
        NullIsNotSparse(rest[..512]);
        AnnouncedFirsts(tail, step.next, closed + Blocks(all, lim.max), [], done + {|closed|}, lim);
        assert ([all] + GroupsAfter([], es))[1..] == GroupsAfter([], es);
      }
    }
  }

  lemma HeldJoins(rest: Bytes, ps: ParseState)
    requires NextElement(rest, ps).Some? && !IsNull(rest[..512])
    ensures Held(ps.mem, rest[..512], |NextElement(rest, ps).value.element.bytes|) ==>
              NextElement(rest, ps).value.element.joins
  {
    hide Joins, IsNull;
  }

  lemma NullIsNotSparse(h: Block)
    ensures IsNull(h) ==> !HasSparseExtension(h)
  {}

  /** Without `-s`, the frames of an archive are those of its groups, one group after the other; and if
      every entry is known in time, the frames with a pledged size are exactly the first of each group. */
  lemma FirstOfEachGroup(stack: Stack, input: Bytes, lim: Limits)
    requires lim.Valid() && lim.min == 0 && Frames(stack, input, lim).Ok?
    ensures Frames(stack, input, lim).value == ByGroup(GroupsOf(stack, input), lim.max)
    ensures AllKnown(input, Fresh(stack)) ==>
              PledgedFrames(stack, input, lim) == Firsts(GroupsOf(stack, input), lim.max, 0)
  {
    hide FoldGroups, Announced, Blocks, ElementsOf;
    GroupsAreInput(stack, input, lim);
    FramesByGroup([], GroupsOf(stack, input), lim);
    assert [] + ByGroup(GroupsOf(stack, input), lim.max) == ByGroup(GroupsOf(stack, input), lim.max);
    if AllKnown(input, Fresh(stack)) {
      AnnouncedFirsts(input, Fresh(stack), [], [], {}, lim);
    }
  }

  /** With `-s`, no size is pledged. */
  lemma {:induction false} NoneWithMinimum(rest: Bytes, ps: ParseState, st: Framer, waiting: Bytes, done: set<nat>,
                                           lim: Limits)
    requires lim.min > 0
    ensures Announced(rest, ps, st, waiting, done, lim) == done
    decreases |rest|
  {
    hide Feed, EndGroup, IsNull, HasSparseExtension, Held, NextElement;
    if rest != [] && NextElement(rest, ps).Some? {
      var step := NextElement(rest, ps).value;
      var e, tail, all := step.element, rest[|step.element.bytes|..], waiting + step.element.bytes;
      var fed := Feed(st, all, lim.max);
      NoneWithMinimum(tail, step.next, st, all, done, lim);
      NoneWithMinimum(tail, step.next, fed, [], done, lim);
      NoneWithMinimum(tail, step.next, EndGroup(fed, lim.min), [], done, lim);
    }
  }
}
