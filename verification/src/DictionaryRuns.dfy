/** Runs of public writes: the nested dictionary behaves like a flat map from locations to typed values. */
module DictionaryRuns {
  import opened Wrappers
  import opened Bytes
  import opened ObjectValues
  import opened Entries
  import opened ObjectDictionaries
  import opened Boots

  /**
   * A write request takes effect at a location, judged by the dictionary before the run: it names
   * the location, which no access right protects, and has its type. A variable that sits on the
   * index of a PDO mapping takes only the count 0.
   */
  predicate TakesEffect(d: Dictionary, w: WriteRequest, i: u16, s: u8)
    requires HasLocation(d, i, s)
  {
    && w.index == i && w.sub == s && !IsCommandIndex(i) && !IsProtected(d[i])
    && SameType(Value(d, i, s), w.value)
    && (s == 0 && IsMappingIndex(i) ==> w.value == Unsigned8(0))
  }

  /** The value of the last request that takes effect, or the initial one. */
  function LastValue(d: Dictionary, ws: seq<WriteRequest>, i: u16, s: u8): ObjectValue
    requires HasLocation(d, i, s)
  {
    if ws == [] then Value(d, i, s)
    else if TakesEffect(d, ws[|ws| - 1], i, s) then ws[|ws| - 1].value
    else LastValue(d, ws[..|ws| - 1], i, s)
  }

  /** A public write to another location leaves this one alone. */
  lemma {:induction false} WriteMissesOthers(od: OdState, w: WriteRequest, i: u16, s: u8)
    requires HasLocation(od.entries, i, s) && (w.index, w.sub) != (i, s)
    ensures var after := WriteSpec(od, w.index, w.sub, w.value).1.entries;
            HasLocation(after, i, s) && Value(after, i, s) == Value(od.entries, i, s)
  {
    WriteCases(od, w.index, w.sub, w.value);
    WriteExact(od.entries, w.index, w.sub, w.value, true);
  }

  /** Whether the write gets as far as the internal write, on a location that it names. */
  lemma {:induction false} NamedWriteReaches(od: OdState, w: WriteRequest, i: u16, s: u8)
    requires HasLocation(od.entries, i, s) && (w.index, w.sub) == (i, s)
    ensures WriteSpec(od, i, s, w.value).1.entries ==
            if TakesEffect(od.entries, w, i, s) then Written(od.entries, i, s, w.value, true) else od.entries
  {
    if s == 0 && IsMappingIndex(i) {
      assert od.entries[i].obj.Variable?;
    }
  }

  /** One public write to a location is accepted exactly when it takes effect. */
  lemma {:induction false} WriteTakesEffect(od: OdState, w: WriteRequest, i: u16, s: u8)
    requires HasLocation(od.entries, i, s)
    ensures var after := WriteSpec(od, w.index, w.sub, w.value).1.entries;
            && HasLocation(after, i, s)
            && Value(after, i, s) == if TakesEffect(od.entries, w, i, s) then w.value else Value(od.entries, i, s)
  {
    if (w.index, w.sub) == (i, s) {
      NamedWriteReaches(od, w, i, s);
      WriteExact(od.entries, i, s, w.value, true);
    } else {
      WriteMissesOthers(od, w, i, s);
    }
  }

  /** What a request does depends on the shape of the dictionary only. */
  lemma TakesEffectByShape(a: Dictionary, b: Dictionary, w: WriteRequest, i: u16, s: u8)
    requires SameShape(a, b) && HasLocation(a, i, s)
    ensures HasLocation(b, i, s) && TakesEffect(a, w, i, s) == TakesEffect(b, w, i, s)
  {
    SameShapeLocations(a, b, i, s);
    SameTypeEquivalence(Value(a, i, s), Value(b, i, s), w.value);
    SameTypeEquivalence(Value(b, i, s), Value(a, i, s), w.value);
  }

  /**
   * The last write wins: after any public writes, successful or not, each location holds the value
   * of the last request that takes effect there, and its initial value if there was none.
   */
  lemma {:induction false} LastWriteWins(od: OdState, ws: seq<WriteRequest>, i: u16, s: u8)
    requires HasLocation(od.entries, i, s)
    ensures Read(RunWrites(od, ws).entries, i, s) == Some(LastValue(od.entries, ws, i, s))
  {
    if ws != [] {
      var before, w := RunWrites(od, ws[..|ws| - 1]), ws[|ws| - 1];
      WritesKeep(od, ws[..|ws| - 1]);
      LastWriteWins(od, ws[..|ws| - 1], i, s);
      TakesEffectByShape(od.entries, before.entries, w, i, s);
      WriteTakesEffect(before, w, i, s);
    }
  }
}
