/** What holds of the frames of every archive. */
module TarFrames {
  import opened Basics
  import opened Framing
  import opened FrameShape
  import opened Elements

  /** The groups an archive is made of: entries with the entries that join them, runs of null blocks. */
  ghost function GroupsOf(mem: Memory, input: Bytes): seq<Bytes>
  {
    match ElementsOf(input, Fresh(mem))
    case Fail => []
    case Ok(es) => Groups(es)
  }

  ghost function Covered(es: seq<Element>): Bytes
    decreases |es|
  {
    if es == [] then [] else es[0].bytes + Covered(es[1..])
  }

  lemma {:induction false} ElementsCover(rest: Bytes, ps: ParseState)
    ensures match ElementsOf(rest, ps)
            case Fail => true
            case Ok(es) => Covered(es) == rest && (es == [] <==> rest == [])
    decreases |rest|
  {
    hide NextElement;
    if rest != [] && NextElement(rest, ps).Some? {
      var step := NextElement(rest, ps).value;
      var n := |step.element.bytes|;
      NextElementIsPrefix(rest, ps);
      ElementsCover(rest[n..], step.next);
      assert rest == rest[..n] + rest[n..];
      match ElementsOf(rest[n..], step.next)
      case Fail =>
      case Ok(es) =>
        assert ([step.element] + es)[1..] == es;
    }
  }

  lemma {:induction false} GroupsCover(es: seq<Element>)
    ensures Join(Groups(es)) == Covered(es)
    decreases |es|
  {
    if es != [] {
      var rest := Groups(es[1..]);
      GroupsCover(es[1..]);
      if es[0].joins && rest != [] {
        assert Groups(es)[1..] == rest[1..];
        assert es[0].bytes + rest[0] + Join(rest[1..]) == es[0].bytes + (rest[0] + Join(rest[1..]));
      } else {
        assert Groups(es)[1..] == rest;
      }
    }
  }

  lemma GroupsAreInput(mem: Memory, input: Bytes, lim: Limits)
    requires Frames(mem, input, lim).Ok?
    ensures input != [] && Flatten(GroupsOf(mem, input)) == input
    ensures Frames(mem, input, lim).value == Finish(FoldGroups(EMPTY, GroupsOf(mem, input), lim))
  {
    ElementsCover(input, Fresh(mem));
    GroupsCover(ElementsOf(input, Fresh(mem)).value);
    JoinIsFlatten(GroupsOf(mem, input));
  }

  /** The frames of an accepted archive are described by `IsFraming`, and by nothing else. */
  lemma FramesCharacterised(mem: Memory, input: Bytes, lim: Limits, fs: seq<Bytes>)
    requires lim.Valid() && Frames(mem, input, lim).Ok?
    ensures Frames(mem, input, lim) == Ok(fs) <==> IsFraming(fs, input, Ends(GroupsOf(mem, input)), lim)
  {
    GroupsAreInput(mem, input, lim);
    FramingIsUnique(fs, GroupsOf(mem, input), lim);
  }

  /** No byte is lost, no frame is empty or over the maximum, every frame but the last has
      reached the minimum, and a boundary that is not the end of a group ends a full frame. */
  lemma FramesOfArchive(mem: Memory, input: Bytes, lim: Limits)
    requires lim.Valid() && Frames(mem, input, lim).Ok?
    ensures var fs := Frames(mem, input, lim).value;
            && fs != [] && Flatten(fs) == input
            && forall k | 0 <= k < |fs| :: ShapeAt(fs, Ends(GroupsOf(mem, input)), lim, k)
  {
    hide Frames, ShapeAt, Ends;
    var fs := Frames(mem, input, lim).value;
    FramesCharacterised(mem, input, lim, fs);
    GroupsAreInput(mem, input, lim);
    FramingShape(fs, input, Ends(GroupsOf(mem, input)), lim);
  }

  /** Without `-s`, a frame never reaches past the end of the group it starts in. */
  lemma OneGroupPerFrame(mem: Memory, input: Bytes, lim: Limits, k: nat, p: nat)
    requires lim.Valid() && lim.min == 0 && Frames(mem, input, lim).Ok?
    requires k < |Frames(mem, input, lim).value| && p in Ends(GroupsOf(mem, input))
    ensures var fs := Frames(mem, input, lim).value;
            !(Start(fs, k) < p < Start(fs, k) + |fs[k]|)
  {
    var fs := Frames(mem, input, lim).value;
    FramesCharacterised(mem, input, lim, fs);
    assert FrameFits(Start(fs, k), |fs[k]|, Ends(GroupsOf(mem, input)), lim);
  }
}
