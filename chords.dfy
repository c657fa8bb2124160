/**
 * The key chords of `build`: each chord in a step's `keys` is split on `-` and read from
 * the end, so the last field is the key and the one before it, if any, the modifier that
 * names the element. Earlier fields of a longer chord are not used.
 */
module Chords {
  import opened Wrappers
  import opened Text
  import opened Report

  /** The key and modifier read from one chord. */
  datatype Chord = Chord(key: string, modifier: Option<string>)

  /** `key, modifier = chord.split('-').reverse`; None when the split is empty (a chord
      made of dashes only), where `key.downcase` is called on nil. */
  function SplitChord(chord: string): (r: Option<Chord>)
    ensures r.None? <==> Split(Literal("-"), chord) == []
    ensures r.Some? ==> var fs := Split(Literal("-"), chord);
      r.value.key == fs[|fs| - 1] &&
      r.value.modifier == (if |fs| >= 2 then Some(fs[|fs| - 2]) else None)
  {
    var fs := Split(Literal("-"), chord);
    if fs == [] then None
    else Some(Chord(fs[|fs| - 1], if |fs| >= 2 then Some(fs[|fs| - 2]) else None))
  }

  /** A chord written as dash-free names joined by `-` is read as its last name, modified
      by the name before it: `Ctrl-Alt-Del` presses Del with Alt, and Ctrl is lost. */
  lemma ChordOfNames(names: seq<string>)
    requires names != []
    requires forall k :: 0 <= k < |names| ==> names[k] != [] && '-' !in names[k]
    ensures SplitChord(Join(names, "-")) ==
              Some(Chord(names[|names| - 1], if |names| >= 2 then Some(names[|names| - 2]) else None))
  {
    NamesSplit(names);
    ChordOfFields(Join(names, "-"), names);
  }

  lemma NamesSplit(names: seq<string>)
    requires forall k :: 0 <= k < |names| ==> names[k] != [] && '-' !in names[k]
    ensures Split(Literal("-"), Join(names, "-")) == names
  {
    var sep := Literal("-");
    forall k | 0 <= k < |names|
      ensures Clean(sep, names[k])
    {
      assert sep.text[0] == '-';
    }
    SplitJoin(sep, names);
  }

  lemma ChordOfFields(chord: string, fs: seq<string>)
    requires Split(Literal("-"), chord) == fs && fs != []
    ensures SplitChord(chord) == Some(Chord(fs[|fs| - 1], if |fs| >= 2 then Some(fs[|fs| - 2]) else None))
  {
  }

  lemma CtrlAltDel()
    ensures SplitChord("Ctrl-Alt-Del") == Some(Chord("Del", Some("Alt")))
  {
    ChordOfNames(["Ctrl", "Alt", "Del"]);
    assert Join(["Ctrl", "Alt", "Del"], "-") == "Ctrl-Alt-Del";
  }

  /** The first structured step, in order, with a chord that has no key: `build` raises
      there, before any step is selected. */
  function CheckKeys(steps: seq<Step>): (r: Result<(), ParseError>)
    ensures r.Ok? <==> forall k :: 0 <= k < |steps| ==> steps[k].narrative.Structured? ==>
                         forall c :: c in steps[k].narrative.keys ==> SplitChord(c).Some?
    ensures r.Err? ==> exists k :: 0 <= k < |steps| && r.error == NoKey(steps[k].number)
  {
    if steps == [] then Ok(())
    else
      var x := steps[0];
      if x.narrative.Structured? && exists c :: c in x.narrative.keys && SplitChord(c).None? then
        Err(NoKey(x.number))
      else
        match CheckKeys(steps[1..])
        case Ok(_) =>
          assert forall k :: 1 <= k < |steps| ==> steps[k] == steps[1..][k - 1];
          Ok(())
        case Err(e) => Err(e)
  }
}
