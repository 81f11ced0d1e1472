/** The formatter and the ordinal listing in their own form: recursive methods that update the
    containers they are handed. */
module TypeFormatter {
  import opened Common
  import opened TypeModel
  import opened TypeWalk

  /** The types found under a list of names; unknown and empty names are passed over. */
  function NamedRoots(lib: Library, names: seq<string>): seq<TypeRef> {
    if names == [] then []
    else if names[0] == "" || names[0] !in lib.byName then NamedRoots(lib, names[1..])
    else [lib.byName[names[0]]] + NamedRoots(lib, names[1..])
  }

  /** The types found under a list of ordinals; ordinal 0 and unknown ordinals are passed over. */
  function OrdinalRoots(lib: Library, ordinals: seq<nat>): seq<TypeRef> {
    if ordinals == [] then []
    else if ordinals[0] == 0 || ordinals[0] !in lib.byOrdinal then OrdinalRoots(lib, ordinals[1..])
    else [lib.byOrdinal[ordinals[0]]] + OrdinalRoots(lib, ordinals[1..])
  }

  /** The roots come in the order in which they are asked for. */
  lemma {:induction false} NamedRootsInOrder(lib: Library, xs: seq<string>, ys: seq<string>)
    ensures NamedRoots(lib, xs + ys) == NamedRoots(lib, xs) + NamedRoots(lib, ys)
  {
    if xs == [] {
      assert xs + ys == ys;
    } else {
      assert (xs + ys)[1..] == xs[1..] + ys;
      NamedRootsInOrder(lib, xs[1..], ys);
    }
  }

  lemma {:induction false} OrdinalRootsInOrder(lib: Library, xs: seq<nat>, ys: seq<nat>)
    ensures OrdinalRoots(lib, xs + ys) == OrdinalRoots(lib, xs) + OrdinalRoots(lib, ys)
  {
    if xs == [] {
      assert xs + ys == ys;
    } else {
      assert (xs + ys)[1..] == xs[1..] + ys;
      OrdinalRootsInOrder(lib, xs[1..], ys);
    }
  }

  /** A name gives a root if it is not empty and known, an ordinal if it is not zero and known. */
  lemma SingleRoots(lib: Library, name: string, ordinal: nat)
    ensures NamedRoots(lib, [name]) == if name != "" && name in lib.byName then [lib.byName[name]] else []
    ensures OrdinalRoots(lib, [ordinal])
         == if ordinal != 0 && ordinal in lib.byOrdinal then [lib.byOrdinal[ordinal]] else []
  {
    assert [name][1..] == [] && [ordinal][1..] == [];
  }

  /** With trimming on, a struct is dropped exactly when no entry reports a used offset in it. */
  lemma DroppedIffUnused(c: Context, entries: seq<UsedOffsets>, name: string)
    requires name != ""
    requires forall n :: n in c.used <==> n != "" && HasEntry(entries, n)
    requires forall n, offset :: n in c.used ==> (offset in c.used[n] <==> IsUsed(entries, n, offset))
    ensures Dropped(c, name) <==>
            && c.trim && name in c.lib.decls && !c.lib.decls[name].isUnion
            && forall offset :: !IsUsed(entries, name, offset)
  {
    assert forall offset :: IsUsed(entries, name, offset) ==> HasEntry(entries, name);
    if name in c.used && c.used[name] != {} {
      var offset := ElementOf(c.used[name]);
      assert IsUsed(entries, name, offset);
    }
  }

  /** The output vector and the two name sets of one rendering. */
  class WalkBuffers {
    var out: seq<string>
    var emitted: set<string>
    var onStack: set<string>

    constructor ()
      ensures View() == START
    {
      out, emitted, onStack := [], {}, {};
    }

    ghost function View(): State
      reads this
    {
      State(out, emitted, onStack)
    }
  }

  class TypeDeclarationFormatter {
    const context: Context

    constructor (lib: Library, trim: bool, usedOffsets: seq<UsedOffsets>)
      ensures context.lib == lib && context.trim == trim
      ensures forall name :: name in context.used <==> name != "" && HasEntry(usedOffsets, name)
      ensures forall name, offset :: name in context.used ==>
                (offset in context.used[name] <==> IsUsed(usedOffsets, name, offset))
    {
      var used := UsedOffsetsMap(usedOffsets);
      context := Context(lib, trim, used);
    }

    method Walk(t: TypeRef, depth: nat, maxDepth: int, b: WalkBuffers)
      modifies b
      ensures b.View() == TypeWalk.Walk(context, t, depth, maxDepth, old(b.View()))
      decreases context.lib.decls.Keys - b.onStack, t
    {
      match t
      case Absent =>
      case Ptr(target) => Walk(target, depth, maxDepth, b);
      case Arr(element) => Walk(element, depth, maxDepth, b);
      case Func(ret, params) =>
        Walk(ret, depth, maxDepth, b);
        ghost var start := b.View();
        for i := 0 to |params|
          invariant b.onStack == old(b.onStack)
          invariant WalkAll(context, params, depth, maxDepth, start)
                 == WalkAll(context, params[i..], depth, maxDepth, b.View())
        {
          assert params[i..][1..] == params[i + 1..];
          Walk(params[i], depth, maxDepth, b);
        }
      case OpaqueFunc =>
      case Anon(_) =>
      case Named(name) =>
        if name == "" { return; }
        if maxDepth >= 0 && depth > maxDepth { return; }
        if name in b.emitted || name in b.onStack { return; }
        b.onStack := b.onStack + {name};
        var dropThis := false;
        ghost var entered := b.View();
        if name in context.lib.decls {
          var udt := context.lib.decls[name];
          var accessed := None;
          if context.trim && !udt.isUnion && name in context.used && context.used[name] != {} {
            accessed := Some(context.used[name]);
          }
          if context.trim && accessed == None && !udt.isUnion {
            dropThis := true;
          } else {
            var members := udt.members;
            for i := 0 to |members|
              invariant b.onStack == entered.onStack
              invariant WalkAll(context, KeptTypes(members, accessed), depth + 1, maxDepth, entered)
                     == WalkAll(context, KeptTypes(members[i..], accessed), depth + 1, maxDepth, b.View())
            {
              assert members[i..][1..] == members[i + 1..];
              if accessed.Some? && Skips(members[i], accessed.value) {
                continue;
              }
              ghost var rest := KeptTypes(members[i + 1..], accessed);
              assert ([members[i].typ] + rest)[1..] == rest;
              Walk(members[i].typ, depth + 1, maxDepth, b);
            }
          }
        }
        if !dropThis {
          b.out := b.out + [name];
          b.emitted := b.emitted + {name};
        }
        b.onStack := b.onStack - {name};
        assert dropThis ==> b.View() == old(b.View());
    }

    method RenderNamed(names: seq<string>, maxDepth: int) returns (order: seq<string>)
      ensures order == Run(context, NamedRoots(context.lib, names), maxDepth).order
    {
      var b := new WalkBuffers();
      for i := 0 to |names|
        invariant fresh(b)
        invariant Run(context, NamedRoots(context.lib, names), maxDepth)
               == WalkAll(context, NamedRoots(context.lib, names[i..]), 0, maxDepth, b.View())
      {
        assert names[i..][1..] == names[i + 1..];
        var name := names[i];
        if name == "" || name !in context.lib.byName {
          continue;
        }
        var t := context.lib.byName[name];
        assert ([t] + NamedRoots(context.lib, names[i + 1..]))[1..] == NamedRoots(context.lib, names[i + 1..]);
        Walk(t, 0, maxDepth, b);
      }
      order := b.out;
    }

    method RenderOrdinals(ordinals: seq<nat>) returns (order: seq<string>)
      ensures order == Run(context, OrdinalRoots(context.lib, ordinals), -1).order
    {
      var b := new WalkBuffers();
      for i := 0 to |ordinals|
        invariant fresh(b)
        invariant Run(context, OrdinalRoots(context.lib, ordinals), -1)
               == WalkAll(context, OrdinalRoots(context.lib, ordinals[i..]), 0, -1, b.View())
      {
        assert ordinals[i..][1..] == ordinals[i + 1..];
        if ordinals[i] == 0 || ordinals[i] !in context.lib.byOrdinal {
          continue;
        }
        var t := context.lib.byOrdinal[ordinals[i]];
        ghost var rest := OrdinalRoots(context.lib, ordinals[i + 1..]);
        assert ([t] + rest)[1..] == rest;
        Walk(t, 0, -1, b);
      }
      order := b.out;
    }
  }

  /** `result` and `seen` of the ordinal listing, which its recursive lambda captures. */
  class ListingBuffers {
    var result: seq<string>
    var seen: set<string>

    constructor ()
      ensures View() == Listing([], {})
    {
      result, seen := [], {};
    }

    ghost function View(): Listing
      reads this
    {
      Listing(result, seen)
    }

    method Walk(lib: Library, t: TypeRef)
      modifies this
      ensures View() == List(lib, t, old(View()))
      decreases lib.decls.Keys - seen, t
    {
      match t
      case Absent =>
      case Ptr(target) => Walk(lib, target);
      case Arr(element) => Walk(lib, element);
      case Func(ret, params) =>
        Walk(lib, ret);
        ghost var start := View();
        for i := 0 to |params|
          invariant start.seen <= seen && old(seen) <= seen
          invariant ListAll(lib, params, start) == ListAll(lib, params[i..], View())
        {
          assert params[i..][1..] == params[i + 1..];
          Walk(lib, params[i]);
        }
      case OpaqueFunc =>
      case Anon(_) =>
      case Named(name) =>
        if name == "" || name in seen { return; }
        seen := seen + {name};
        ghost var entered := View();
        if name in lib.decls {
          var members := lib.decls[name].members;
          for i := 0 to |members|
            invariant entered.seen <= seen
            invariant ListAll(lib, KeptTypes(members, None), entered)
                   == ListAll(lib, KeptTypes(members[i..], None), View())
          {
            assert members[i..][1..] == members[i + 1..];
            assert ([members[i].typ] + KeptTypes(members[i + 1..], None))[1..] == KeptTypes(members[i + 1..], None);
            Walk(lib, members[i].typ);
          }
        }
        result := result + [name];
    }
  }

  /** Lists exactly what `RenderOrdinals` of an untrimmed formatter would render. */
  method DeclarationsForOrdinals(lib: Library, ordinals: seq<nat>) returns (names: seq<string>)
    ensures names == ListAll(lib, OrdinalRoots(lib, ordinals), Listing([], {})).result
    ensures names == Run(Context(lib, false, map[]), OrdinalRoots(lib, ordinals), -1).order
  {
    var b := new ListingBuffers();
    for i := 0 to |ordinals|
      invariant fresh(b)
      invariant ListAll(lib, OrdinalRoots(lib, ordinals), Listing([], {}))
             == ListAll(lib, OrdinalRoots(lib, ordinals[i..]), b.View())
    {
      assert ordinals[i..][1..] == ordinals[i + 1..];
      if ordinals[i] != 0 && ordinals[i] in lib.byOrdinal {
        var t := lib.byOrdinal[ordinals[i]];
        assert ([t] + OrdinalRoots(lib, ordinals[i + 1..]))[1..] == OrdinalRoots(lib, ordinals[i + 1..]);
        b.Walk(lib, t);
      }
    }
    names := b.result;
    ListingsAgree(Context(lib, false, map[]), OrdinalRoots(lib, ordinals));
  }
}
