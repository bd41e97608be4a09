/** The macro table as the preprocessor changes it: chains searched and relinked in place, and
    the save list that push_macro and pop_macro work on. */
module MacroStoreMachine {
  import opened Bits
  import opened MacroStore
  import opened Options

  class MacroTable {
    const buckets: array<Chain>
    var saveStack: seq<Frame>

    ghost predicate Valid()
      reads this, buckets
    {
      buckets.Length == MACRO_BUCKETS && Ok(View())
    }

    ghost function View(): Store
      reads this, buckets
    {
      Store(buckets[..], saveStack)
    }

    constructor ()
      ensures Valid() && fresh(buckets) && saveStack == []
      ensures forall name :: Lookup(View(), name) == None
    {
      buckets := new Chain[MACRO_BUCKETS](_ => []);
      saveStack := [];
    }

    /** macro_hash, by the loop over the characters. */
    static method Hash(name: string) returns (h: nat)
      ensures h == Slot(name)
    {
      h := 2166136261;
      for i := 0 to |name|
        invariant HashFrom(h, name[i..]) == MacroHash(name)
      {
        h := (BitOp(XOR, 32, h, name[i] as nat % 256) * 16777619) % TWO32;
      }
      SlotIsMask(name);
      h := BitOp(AND, 32, h, MACRO_BUCKETS - 1);
    }

    /** macro_slot: the chain of a name, and where in it the name stands, if it does. */
    method FindSlot(name: string) returns (h: nat, i: nat)
      requires Valid()
      ensures h == Slot(name) && i <= |buckets[h]| && Find(buckets[h][..i], name) == None
      ensures i < |buckets[h]| ==> buckets[h][i].name == name
    {
      h := Hash(name);
      i := 0;
      while i < |buckets[h]| && buckets[h][i].name != name
        invariant i <= |buckets[h]| && Find(buckets[h][..i], name) == None
      {
        FindAt(buckets[h][..i], name);
        FindAt(buckets[h][..i + 1], name);
        i := i + 1;
      }
    }

    method LookupMacro(name: string) returns (def: Option<Def>)
      requires Valid()
      ensures def == Lookup(View(), name)
    {
      var h, i := FindSlot(name);
      FoundAt(buckets[h], name, i);
      def := if i < |buckets[h]| then Some(buckets[h][i].def) else None;
    }

    /** macro_define; a reserved name is an error. */
    method DefineMacro(name: string, def: Def) returns (error: bool)
      requires Valid()
      modifies buckets
      ensures Valid() && View() == DoDefine(old(View()), name, def) && (error <==> name in RESERVED)
    {
      hide Ok, Slot;
      DefineCell(View(), name, def, name);
      if name in RESERVED { return true; }
      var h, i := FindSlot(name);
      FoundAt(buckets[h], name, i);
      if i < |buckets[h]| {
        ReplaceAt(buckets[h], name, def, i);
        buckets[h] := buckets[h][i := Entry(name, def)];
      } else {
        buckets[h] := [Entry(name, def)] + buckets[h];
      }
      assert buckets[..] == old(buckets[..])[h := Put(old(buckets[h]), name, def)];
      return false;
    }

    /** macro_undef */
    method UndefMacro(name: string)
      requires Valid()
      modifies buckets
      ensures Valid() && View() == DoUndef(old(View()), name)
    {
      hide Ok, Slot;
      UndefCell(View(), name, name);
      var h, i := FindSlot(name);
      FoundAt(buckets[h], name, i);
      DropAt(buckets[h], name, i);
      if i < |buckets[h]| {
        buckets[h] := buckets[h][..i] + buckets[h][i + 1..];
      }
      assert buckets[..] == old(buckets[..])[h := Drop(old(buckets[h]), name)];
    }

    /** macro_push_state */
    method PushState(name: string)
      requires Valid()
      modifies this`saveStack
      ensures Valid() && View() == Do(old(View()), PushMacro(name))
    {
      hide Ok;
      PushCell(View(), name, name);
      var def := LookupMacro(name);
      saveStack := [Frame(name, def)] + saveStack;
    }

    /** macro_pop_state */
    method PopState(name: string)
      requires Valid()
      modifies this`saveStack, buckets
      ensures Valid() && View() == Do(old(View()), PopMacro(name))
    {
      hide Ok, DoUndef, DoDefine;
      PopCell(View(), name, name);
      var i := 0;
      while i < |saveStack| && saveStack[i].name != name
        invariant i <= |saveStack| && forall j :: 0 <= j < i ==> saveStack[j].name != name
      {
        i := i + 1;
      }
      SavedAt(saveStack, name, i);
      if i == |saveStack| { return; }
      var f := saveStack[i];
      assert Ok(View().(saved := Unlink(saveStack, name))) by { UnlinkOk(View(), name); }
      saveStack := saveStack[..i] + saveStack[i + 1..];
      UndefMacro(name);
      if f.was.Some? {
        var _ := DefineMacro(name, f.was.value);
      }
    }
  }

  lemma {:induction false} FoundAt(chain: Chain, name: string, i: nat)
    requires i <= |chain| && Find(chain[..i], name) == None && (i < |chain| ==> chain[i].name == name)
    ensures Find(chain, name) == if i < |chain| then Some(chain[i].def) else None
    decreases |chain|
  {
    if i > 0 {
      assert chain[..i][1..] == chain[1..][..i - 1];
      FoundAt(chain[1..], name, i - 1);
    }
  }

  lemma {:induction false} ReplaceAt(chain: Chain, name: string, def: Def, i: nat)
    requires i < |chain| && Find(chain[..i], name) == None && chain[i].name == name
    ensures Replace(chain, name, def) == chain[i := Entry(name, def)]
    decreases |chain|
  {
    if i > 0 {
      assert chain[..i][1..] == chain[1..][..i - 1];
      ReplaceAt(chain[1..], name, def, i - 1);
    }
  }

  lemma {:induction false} DropAt(chain: Chain, name: string, i: nat)
    requires i <= |chain| && Find(chain[..i], name) == None && (i < |chain| ==> chain[i].name == name)
    ensures Drop(chain, name) == if i < |chain| then chain[..i] + chain[i + 1..] else chain
    decreases |chain|
  {
    if i > 0 {
      var (e, rest) := (chain[0], chain[1..]);
      assert chain == [e] + rest && chain[..i] == [e] + rest[..i - 1];
      FindCons(e, rest[..i - 1], name);
      DropAt(rest, name, i - 1);
      assert i < |chain| ==> chain[..i] + chain[i + 1..] == [e] + (rest[..i - 1] + rest[i..]);
    }
  }

  lemma {:induction false} SavedAt(saved: seq<Frame>, name: string, i: nat)
    requires i <= |saved| && (forall j :: 0 <= j < i ==> saved[j].name != name)
    requires i < |saved| ==> saved[i].name == name
    ensures if i < |saved| then
              SavedOf(saved, name) != [] && SavedOf(saved, name)[0] == saved[i].was
              && Unlink(saved, name) == saved[..i] + saved[i + 1..]
            else SavedOf(saved, name) == []
    decreases |saved|
  {
    if i > 0 {
      SavedAt(saved[1..], name, i - 1);
    }
  }

  lemma UnlinkOk(s: Store, name: string)
    requires Ok(s)
    ensures Ok(s.(saved := Unlink(s.saved, name)))
  {
    hide ChainOk;
    UnlinkSaved(s.saved, name, name);
  }
}
