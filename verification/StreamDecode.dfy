/**
  LZ4_streamDecode_t: blocks decoded one after the other, next to each other or in other places, and the
  double buffer of the stream bindings on top of it. Addresses are positions in one memory.
*/
module StreamDecode {
  import opened Bytes
  import opened BlockDecoderSpec
  import opened BlockApi
  import opened BlockDecoder
  import opened BlockWriter
  import opened WildCopy
  import opened FrameHistory
  import opened FastStream

  class Decoder {
    var externalDict: nat
    var extDictSize: nat
    var prefixEnd: nat
    var prefixSize: nat

    ghost predicate Valid(mem: bytes)
      reads this
    {
      && prefixSize <= prefixEnd <= |mem| && externalDict + extDictSize <= |mem|
      && (prefixSize == 0 ==> extDictSize == 0)
    }

    /** LZ4_createStreamDecode */
    constructor ()
      ensures prefixSize == 0 && extDictSize == 0 && prefixEnd == 0 && externalDict == 0
    {
      externalDict, extDictSize, prefixEnd, prefixSize := 0, 0, 0, 0;
    }

    /** LZ4_setStreamDecode */
    method SetStreamDecode(mem: array<byte>, dictionary: nat, dictSize: nat)
      requires dictionary + dictSize <= mem.Length
      modifies this
      ensures Valid(mem[..]) && Prefix(mem[..]) == mem[dictionary..dictionary + dictSize] && extDictSize == 0
    {
      prefixSize := dictSize;
      prefixEnd := dictionary + dictSize;
      externalDict, extDictSize := 0, 0;
    }

    /** The bytes decoded last, one segment. */
    ghost function Prefix(mem: bytes): bytes
      reads this
      requires Valid(mem)
    {
      mem[prefixEnd - prefixSize..prefixEnd]
    }

    ghost function External(mem: bytes): bytes
      reads this
      requires Valid(mem)
    {
      mem[externalDict..externalDict + extDictSize]
    }

    /** Everything a block decoded to `dest` may refer to. */
    ghost function Known(mem: bytes, dest: nat): bytes
      reads this
      requires Valid(mem)
    {
      if prefixSize > 0 && prefixEnd == dest then External(mem) + Prefix(mem) else Prefix(mem)
    }

    /** The part of it that the decoder looks at, and how much of that it takes for an external dictionary. */
    ghost function Seen(mem: bytes, dest: nat): bytes
      reads this
      requires Valid(mem)
    {
      if prefixSize >= WINDOW - 1 then Prefix(mem) else Known(mem, dest)
    }

    ghost function SeenExternal(dest: nat): nat
      reads this
    {
      if prefixSize > 0 && prefixEnd == dest then (if prefixSize >= WINDOW - 1 then 0 else extDictSize) else prefixSize
    }

    /** What the block may refer to is not in the way of the output. */
    ghost predicate Clear(dest: nat, cap: nat)
      reads this
      requires prefixSize <= prefixEnd
    {
      if prefixSize > 0 && prefixEnd == dest then Disjoint(externalDict, extDictSize, dest, cap)
      else Disjoint(prefixEnd - prefixSize, prefixSize, dest, cap)
    }

    /** The outcome of a decoding after the history seen, with `ext` of it in an external dictionary. */
    ghost predicate Does(was: bytes, now: bytes, src: bytes, seen: bytes, ext: nat, dest: nat, cap: nat, result: int)
      requires ext <= |seen|
    {
      && Outside(was, now, dest, dest + cap)
      && var o := Decompress(src, seen, ext, cap, false); !o.Unspecified? ==> Returns(o, seen, result, now, dest, cap)
    }

    /** They're rolling the current segment. */
    method DispatchRolling(mem: array<byte>, src: bytes, dest: nat, cap: nat, fastLoop: bool) returns (result: int)
      requires Valid(mem[..]) && dest + cap <= mem.Length && 0 < prefixSize && prefixEnd == dest
      modifies mem
      ensures SeenExternal(dest) <= |Seen(old(mem[..]), dest)|
      ensures Does(old(mem[..]), mem[..], src, Seen(old(mem[..]), dest), SeenExternal(dest), dest, cap, result)
    {
      hide BlockDecoderSpec.Decompress, Returns, Outside;
      ghost var was := mem[..];
      if prefixSize >= WINDOW - 1 {
        result := Decode(src, mem, dest, cap, false, WithPrefix64k, dest - WINDOW, [], fastLoop);
        assert [] + was[Max(dest - WINDOW, 0)..dest] == was[Max(dest - WINDOW, 0)..dest];
        Prefix64k(src, was, dest, prefixSize, cap, false, result, mem[..]);
      } else if extDictSize == 0 {
        result := Decode(src, mem, dest, cap, false, NoDict, dest - prefixSize, [], fastLoop);
        assert External(was) == [];
        assert [] + was[dest - prefixSize..dest] == [] + Prefix(was);
      } else {
        result := Decode(src, mem, dest, cap, false, UsingExtDict, dest - prefixSize,
          mem[externalDict..externalDict + extDictSize], fastLoop);
      }
    }

    /** The five ways to decode, each for another layout of the history. */
    method Dispatch(mem: array<byte>, src: bytes, dest: nat, cap: nat, fastLoop: bool) returns (result: int)
      requires Valid(mem[..]) && dest + cap <= mem.Length
      modifies mem
      ensures SeenExternal(dest) <= |Seen(old(mem[..]), dest)|
      ensures Does(old(mem[..]), mem[..], src, Seen(old(mem[..]), dest), SeenExternal(dest), dest, cap, result)
    {
      hide BlockDecoderSpec.Decompress, Returns, Outside;
      ghost var was := mem[..];
      assert [] + was[dest..dest] == [];
      if prefixSize == 0 {
        result := Decode(src, mem, dest, cap, false, NoDict, dest, [], fastLoop);
        assert Prefix(was) == [];
      } else if prefixEnd == dest {
        result := DispatchRolling(mem, src, dest, cap, fastLoop);
      } else {
        result := Decode(src, mem, dest, cap, false, UsingExtDict, dest, mem[prefixEnd - prefixSize..prefixEnd],
          fastLoop);
        assert Prefix(was) + was[dest..dest] == Prefix(was);
      }
    }

    lemma SeenIsEnd(mem: bytes, dest: nat, content: bytes, block: bytes)
      requires Valid(mem) && IsBlockOf(Known(mem, dest), content, block)
      ensures IsBlockOf(Seen(mem, dest), content, block) && SeenExternal(dest) <= |Seen(mem, dest)|
    {
      hide IsBlockOf;
      var e, p := External(mem), Prefix(mem);
      if prefixSize > 0 && prefixEnd == dest && prefixSize >= WINDOW - 1 {
        BlockShiftDown(e, p, content, block);
      }
    }

    /** "The buffer wraps around, or they're switching to another buffer." */
    method Switch()
      requires prefixSize <= prefixEnd
      modifies this`externalDict, this`extDictSize
      ensures extDictSize == prefixSize && externalDict == prefixEnd - prefixSize
    {
      extDictSize := prefixSize;
      externalDict := prefixEnd - extDictSize;
    }

    lemma Decoded(mem: bytes, dest: nat, cap: nat, h: bytes, content: bytes, src: bytes, result: int, now: bytes)
      requires Valid(mem) && SeenExternal(dest) <= |Seen(mem, dest)|
      requires var o := Decompress(src, Seen(mem, dest), SeenExternal(dest), cap, false);
               !o.Unspecified? ==> Returns(o, Seen(mem, dest), result, now, dest, cap)
      ensures result <= cap
      ensures EndOf(h, Known(mem, dest)) && IsBlockOf(h, content, src) && |content| <= cap ==>
                result == |content| && dest + result <= |now| && now[dest..dest + result] == content
    {
      hide BlockDecoderSpec.Decompress, IsBlockOf, EndOf, Known, Seen;
      var seen := Seen(mem, dest);
      FullSpecified(src, seen, SeenExternal(dest), cap);
      if EndOf(h, Known(mem, dest)) && IsBlockOf(h, content, src) && |content| <= cap {
        BlockAfterAll(h, Known(mem, dest), content, src);
        SeenIsEnd(mem, dest, content, src);
        BlockDecodes(seen, content, src, SeenExternal(dest), cap, false);
        assert (seen + content)[..|seen| + |content|] == seen + content;
        assert (seen + now[dest..dest + result])[|seen|..] == now[dest..dest + result]
          && (seen + content)[|seen|..] == content;
      }
    }

    lemma SeenFits(mem: bytes, dest: nat)
      requires Valid(mem)
      ensures SeenExternal(dest) <= |Seen(mem, dest)|
    {
    }

    lemma Still(was: bytes, now: bytes, lo: nat, n: nat, dest: nat, cap: nat)
      requires Outside(was, now, dest, dest + cap) && lo + n <= |was| && Disjoint(lo, n, dest, cap)
      ensures lo + n <= |now| && now[lo..lo + n] == was[lo..lo + n]
    {
      SliceKept(was, now, lo, lo + n, dest, cap);
    }

    /** The segment grows; its external dictionary stays unless the output has overwritten it. */
    method Roll(mem: array<byte>, ghost was: bytes, dest: nat, cap: nat, result: nat)
      requires |was| == mem.Length && Valid(was) && Outside(was, mem[..], dest, dest + cap) && dest + cap <= mem.Length
        && result <= cap
      requires prefixSize > 0 && prefixEnd == dest
      modifies this`prefixEnd, this`prefixSize
      ensures prefixEnd == dest + result && Valid(mem[..])
      ensures Prefix(mem[..]) == old(Prefix(was)) + mem[dest..dest + result]
      ensures Disjoint(externalDict, extDictSize, dest, cap) ==> External(mem[..]) == old(External(was))
    {
      hide Outside;
      if Disjoint(externalDict, extDictSize, dest, cap) { Still(was, mem[..], externalDict, extDictSize, dest, cap); }
      Still(was, mem[..], prefixEnd - prefixSize, prefixSize, dest, cap);
      assert mem[dest - prefixSize..dest + result] == mem[dest - prefixSize..dest] + mem[dest..dest + result];
      prefixSize, prefixEnd := prefixSize + result, prefixEnd + result;
    }

    /** Another segment begins. */
    method Leave(mem: array<byte>, ghost was: bytes, dest: nat, cap: nat, result: nat)
      requires |was| == mem.Length && Valid(was) && Outside(was, mem[..], dest, dest + cap) && dest + cap <= mem.Length
        && 0 < result <= cap
      requires extDictSize == prefixSize && externalDict == prefixEnd - prefixSize
      modifies this`prefixEnd, this`prefixSize
      ensures prefixEnd == dest + result && Valid(mem[..]) && Prefix(mem[..]) == mem[dest..dest + result]
      ensures Disjoint(externalDict, extDictSize, dest, cap) ==> External(mem[..]) == old(Prefix(was))
    {
      hide Outside;
      if Disjoint(externalDict, extDictSize, dest, cap) { Still(was, mem[..], externalDict, extDictSize, dest, cap); }
      prefixSize, prefixEnd := result, dest + result;
    }

    /** LZ4_decompress_safe_continue. As long as the output does not touch what is known, the outcome is that of the
        specification on every input, and a block of `content` after the end `h` of what is known comes back as
        its content; a block that refers to nothing comes back in any case. Then the content is known, behind the
        segment it continues and that one's external dictionary, or behind the segment that has been left. */
    method Continue(mem: array<byte>, src: bytes, dest: nat, cap: nat, fastLoop: bool, ghost h: bytes,
        ghost content: bytes)
      returns (result: int)
      requires Valid(mem[..]) && dest + cap <= mem.Length
      modifies this, mem
      ensures Outside(old(mem[..]), mem[..], dest, dest + cap) && Valid(mem[..]) && result <= cap
      ensures old(SeenExternal(dest)) <= |old(Seen(mem[..], dest))|
      ensures old(Clear(dest, cap)) ==>
        Does(old(mem[..]), mem[..], src, old(Seen(mem[..], dest)), old(SeenExternal(dest)), dest, cap, result)
      ensures EndOf(h, old(Known(mem[..], dest))) && IsBlockOf(h, content, src) && |content| <= cap ==>
        old(Clear(dest, cap)) || h == [] ==> result == |content| && mem[dest..dest + result] == content
      ensures result <= 0 ==> prefixEnd == old(prefixEnd) && prefixSize == old(prefixSize)
      ensures result > 0 ==> prefixEnd == dest + result
      ensures var before := if old(prefixSize > 0 && prefixEnd == dest) then old(Prefix(mem[..])) else [];
        result > 0 ==> Prefix(mem[..]) == before + mem[dest..dest + result]
      ensures result > 0 && old(Clear(dest, cap)) ==>
        External(mem[..]) == if old(prefixSize > 0 && prefixEnd == dest) then old(External(mem[..]))
                             else old(Prefix(mem[..]))
    {
      hide BlockDecoderSpec.Decompress, Returns, IsBlockOf, EndOf, Known, Seen, SeenExternal, Outside;
      ghost var was := mem[..];
      SeenFits(was, dest);
      result := Dispatch(mem, src, dest, cap, fastLoop);
      Decoded(was, dest, cap, h, content, src, result, mem[..]);
      if prefixSize == 0 {
        if result > 0 {
          prefixSize, prefixEnd := result, dest + result;
          assert External(mem[..]) == [];
        }
      } else if prefixEnd == dest {
        if result > 0 { Roll(mem, was, dest, cap, result); }
      } else {
        Switch();
        if result > 0 { Leave(mem, was, dest, cap, result); }
      }
    }
  }
}
