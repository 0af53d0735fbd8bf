/**
 * The chat-room provider wrapper of the multi-user-chat service: an ordered
 * list of room wrappers, and user-defined key/value associations stored
 * flat in one array as key, value, key, value, ...
 */
module ChatRoomProvider {
  import opened Wrappers
  import opened JavaValues

  /** An object reference; `equals` on keys is equality of these values. */
  datatype Obj = Obj(id: int)

  /** A chat-room wrapper: its identity and the ID of the room it wraps. */
  datatype RoomWrapper = RoomWrapper(handle: int, chatRoomId: string)

  // ---------------------------------------------------------------------
  // The association array as a sequence of slots (None is a null slot)

  /** The first even slot at or after `from` that holds `key`; -1 if there is none. */
  function KeyIndexFrom(s: seq<Option<Obj>>, key: Obj, from: nat): (r: int)
    requires from % 2 == 0
    ensures r == -1 || (from <= r < |s| && r % 2 == 0 && s[r] == Some(key))
    ensures r == -1 ==> forall j :: from <= j < |s| && j % 2 == 0 ==> s[j] != Some(key)
    ensures r != -1 ==> forall j :: from <= j < r && j % 2 == 0 ==> s[j] != Some(key)
    decreases |s| - from
  {
    if from >= |s| then -1
    else if s[from] == Some(key) then from
    else KeyIndexFrom(s, key, from + 2)
  }

  /** The index of the first key slot holding `key`; -1 if there is none. */
  function KeyIndex(s: seq<Option<Obj>>, key: Obj): int
  {
    KeyIndexFrom(s, key, 0)
  }

  /** The value associated with `key`: the slot after its first key slot, or null. */
  function Lookup(s: seq<Option<Obj>>, key: Obj): Option<Obj>
  {
    var i := KeyIndex(s, key);
    if i == -1 || i + 1 >= |s| then None else s[i + 1]
  }

  /** Whether `s` is laid out as whole pairs. */
  predicate Paired(s: seq<Option<Obj>>)
  {
    |s| % 2 == 0
  }

  /** The key search does not see a change to an odd (value) slot. */
  lemma {:induction false} KeyIndexFromIgnoresValues(s: seq<Option<Obj>>, key: Obj, from: nat, i: nat, v: Option<Obj>)
    requires from % 2 == 0 && i < |s| && i % 2 == 1
    ensures KeyIndexFrom(s[i := v], key, from) == KeyIndexFrom(s, key, from)
    decreases |s| - from
  {
    if from < |s| && s[from] != Some(key) {
      KeyIndexFromIgnoresValues(s, key, from + 2, i, v);
    }
  }

  /** Appending a pair leaves the search for an earlier key unchanged, and finds a new key at the pair. */
  lemma {:induction false} KeyIndexFromAppend(s: seq<Option<Obj>>, k: Obj, v: Option<Obj>, key: Obj, from: nat)
    requires Paired(s) && from % 2 == 0 && from <= |s|
    ensures KeyIndexFrom(s + [Some(k), v], key, from)
         == if KeyIndexFrom(s, key, from) != -1 then KeyIndexFrom(s, key, from)
            else if key == k then |s| else -1
    decreases |s| - from
  {
    var t := s + [Some(k), v];
    if from < |s| {
      assert t[from] == s[from];
      if s[from] != Some(key) {
        KeyIndexFromAppend(s, k, v, key, from + 2);
      }
    } else {
      assert from == |s| && t[from] == Some(k);
      if key != k {
        assert t[from + 1] == v;
      }
    }
  }

  /**
   * The key/value update as written: an absent key with a value is
   * appended as a new pair, a present key has its value slot overwritten
   * (even with null), and an absent key with null ("remove the
   * association, or just don't add it") keeps the array only while it is
   * empty: a single stored pair is discarded, and with more pairs the
   * array copy is given length -1 and throws.
   */
  function SetDataAsWritten(s: seq<Option<Obj>>, key: Obj, value: Option<Obj>): (r: Result<seq<Option<Obj>>, Exception>)
  {
    var i := KeyIndex(s, key);
    if i == -1 then
      if s == [] then Success(if value.Some? then [Some(key), value] else [])
      else if value.None? then
        if |s| - 2 > 0 then Failure(IndexOutOfBounds) else Success([])
      else Success(s + [Some(key), value])
    else if i + 1 < |s| then Success(s[i + 1 := value])
    else Failure(IndexOutOfBounds)
  }

  /** The update as intended: an absent key with null changes nothing. */
  function SetDataIntended(s: seq<Option<Obj>>, key: Obj, value: Option<Obj>): (r: seq<Option<Obj>>)
    requires Paired(s)
  {
    var i := KeyIndex(s, key);
    if i == -1 then
      if value.Some? then s + [Some(key), value] else s
    else s[i + 1 := value]
  }

  /**
   * Outside the defective case, the update as written is a map update:
   * the key now maps to the value, every other key keeps its value, the
   * array stays paired and the existing pairs stay in place.
   */
  lemma SetDataAsWrittenUpdates(s: seq<Option<Obj>>, key: Obj, value: Option<Obj>)
    requires Paired(s) && (value.Some? || KeyIndex(s, key) != -1)
    ensures SetDataAsWritten(s, key, value).Success?
    ensures var t := SetDataAsWritten(s, key, value).value;
      && Paired(t) && |t| >= |s|
      && (forall j :: 0 <= j < |s| && j % 2 == 0 ==> t[j] == s[j])
      && Lookup(t, key) == value
      && (forall other :: other != key ==> Lookup(t, other) == Lookup(s, other))
  {
    var t := SetDataAsWritten(s, key, value).value;
    assert t == SetDataIntended(s, key, value);
    SetDataIntendedIsMapUpdate(s, key, value);
    if KeyIndex(s, key) == -1 {
      assert s == [] ==> t == s + [Some(key), value];
    }
  }

  /** The intended update is a map update in every case. */
  lemma SetDataIntendedIsMapUpdate(s: seq<Option<Obj>>, key: Obj, value: Option<Obj>)
    requires Paired(s)
    ensures var t := SetDataIntended(s, key, value);
      && Paired(t) && |t| >= |s|
      && (forall j :: 0 <= j < |s| && j % 2 == 0 ==> t[j] == s[j])
      && Lookup(t, key) == value
      && (forall other :: other != key ==> Lookup(t, other) == Lookup(s, other))
  {
    var i := KeyIndex(s, key);
    var t := SetDataIntended(s, key, value);
    if i == -1 {
      if value.Some? {
        forall other
          ensures KeyIndex(t, other) == if KeyIndex(s, other) != -1 then KeyIndex(s, other)
                                       else if other == key then |s| else -1
        {
          KeyIndexFromAppend(s, key, value, other, 0);
        }
      }
    } else {
      forall other ensures KeyIndex(t, other) == KeyIndex(s, other) {
        KeyIndexFromIgnoresValues(s, other, 0, i + 1, value);
      }
    }
  }

  /**
   * The defect, on one stored pair: clearing an absent key discards the
   * unrelated association.
   */
  lemma SetDataAsWrittenDropsPair()
    ensures var s := [Some(Obj(1)), Some(Obj(10))];
      && Lookup(s, Obj(1)) == Some(Obj(10))
      && SetDataAsWritten(s, Obj(2), None) == Success([])
      && Lookup(SetDataAsWritten(s, Obj(2), None).value, Obj(1)) == None
      && SetDataIntended(s, Obj(2), None) == s
  {
    var s := [Some(Obj(1)), Some(Obj(10))];
    assert KeyIndexFrom(s, Obj(2), 2) == -1;
    assert KeyIndexFrom(s, Obj(1), 0) == 0;
  }

  /** The defect, on two stored pairs: clearing an absent key throws. */
  lemma SetDataAsWrittenThrows()
    ensures var s := [Some(Obj(1)), Some(Obj(10)), Some(Obj(3)), Some(Obj(30))];
      && SetDataAsWritten(s, Obj(2), None) == Failure(IndexOutOfBounds)
      && SetDataIntended(s, Obj(2), None) == s
  {
    var s := [Some(Obj(1)), Some(Obj(10)), Some(Obj(3)), Some(Obj(30))];
    assert KeyIndexFrom(s, Obj(2), 4) == -1;
    assert KeyIndexFrom(s, Obj(2), 2) == -1;
  }

  // ---------------------------------------------------------------------
  // The room list

  /** The index of the first occurrence of `x` in `s` (`List.indexOf`); -1 if none. */
  function FirstIndex<T(==)>(s: seq<T>, x: T): (r: int)
    ensures r == -1 <==> x !in s
    ensures r != -1 ==> 0 <= r < |s| && s[r] == x && x !in s[..r]
  {
    if s == [] then -1
    else if s[0] == x then 0
    else
      var r := FirstIndex(s[1..], x);
      assert s[1..] == s[..|s|][1..];
      if r == -1 then -1
      else
        assert s[..r + 1] == [s[0]] + s[1..][..r];
        r + 1
  }

  /** `s` without the first occurrence of `x` (`List.remove`); unchanged if `x` is absent. */
  function RemoveFirst<T(==)>(s: seq<T>, x: T): seq<T>
  {
    var i := FirstIndex(s, x);
    if i == -1 then s else s[..i] + s[i + 1..]
  }

  /** Removing takes exactly one occurrence away when there is one, and nothing otherwise. */
  lemma RemoveFirstCounts<T>(s: seq<T>, x: T)
    ensures multiset(RemoveFirst(s, x)) == multiset(s) - multiset{x}
    ensures x !in s ==> RemoveFirst(s, x) == s
    ensures x in s ==> |RemoveFirst(s, x)| == |s| - 1
  {
    var i := FirstIndex(s, x);
    if i == -1 {
      assert x !in multiset(s);
    } else {
      var before, after := s[..i], s[i + 1..];
      assert s == before + [x] + after;
      MultisetOfSplit(before, x, after);
    }
  }

  /** The multiset of a list split around one element. */
  lemma MultisetOfSplit<T>(before: seq<T>, x: T, after: seq<T>)
    ensures multiset(before + after) == multiset(before + [x] + after) - multiset{x}
  {
    calc {
      multiset(before + [x] + after);
      multiset(before) + multiset{x} + multiset(after);
    }
  }

  /** Adding a room and then removing it restores the list when it was not there before. */
  lemma AddThenRemove<T>(s: seq<T>, x: T)
    requires x !in s
    ensures RemoveFirst(s + [x], x) == s
  {
    assert FirstIndex(s + [x], x) == |s| by {
      assert (s + [x])[..|s|] == s;
    }
    assert (s + [x])[..|s|] == s;
  }

  /** The provider's room list and association array. */
  class ProviderWrapper {
    var data: array?<Option<Obj>>
    var chatRooms: seq<RoomWrapper>

    /** The array, when present, holds at least one whole pair. */
    ghost predicate Valid()
      reads this
    {
      data != null ==> data.Length >= 2 && data.Length % 2 == 0
    }

    /** The association slots; no array is no slots. */
    ghost function Slots(): seq<Option<Obj>>
      reads this, data
    {
      if data == null then [] else data[..]
    }

    constructor ()
      ensures Valid() && data == null && chatRooms == []
    {
      data := null;
      chatRooms := [];
    }

    /** The index of `key`'s first key slot; -1 if there is none. */
    method DataIndexOf(key: Obj) returns (index: int)
      requires Valid()
      ensures index == KeyIndex(Slots(), key)
    {
      if data != null {
        index := 0;
        while index < data.Length
          invariant 0 <= index <= data.Length && index % 2 == 0
          invariant KeyIndexFrom(data[..], key, index) == KeyIndex(data[..], key)
        {
          if data[index] == Some(key) {
            return;
          }
          index := index + 2;
        }
      }
      index := -1;
    }

    /** The value associated with `key`; a null key is a NullPointerException. */
    method GetData(key: Option<Obj>) returns (r: Result<Option<Obj>, Exception>)
      requires Valid()
      ensures key.None? ==> r == Failure(NullPointer)
      ensures key.Some? ==> r == Success(Lookup(Slots(), key.value))
    {
      if key.None? {
        return Failure(NullPointer);
      }
      var index := DataIndexOf(key.value);
      r := Success(if index == -1 then None else data[index + 1]);
    }

    /**
     * Associates `value` with `key` as written (see `SetDataAsWritten`); a
     * null key is a NullPointerException. Nothing changes when it throws.
     */
    method SetData(key: Option<Obj>, value: Option<Obj>) returns (outcome: Outcome<Exception>)
      requires Valid()
      modifies this, data
      ensures Valid() && chatRooms == old(chatRooms)
      ensures key.None? ==> outcome == Fail(NullPointer) && Slots() == old(Slots())
      ensures key.Some? ==> match SetDataAsWritten(old(Slots()), key.value, value)
        case Success(t) => outcome == Pass && Slots() == t
        case Failure(e) => outcome == Fail(e) && Slots() == old(Slots())
    {
      if key.None? {
        return Fail(NullPointer);
      }
      var index := DataIndexOf(key.value);
      outcome := Pass;
      if index == -1 {
        if data == null {
          if value.Some? {
            data := new Option<Obj>[] [key, value];
          }
        } else if value.None? {
          var length := data.Length - 2;
          if length > 0 {
            var newData := new Option<Obj>[length];
            outcome := ArrayCopy(data, 0, newData, 0, index);
            assert outcome.Fail?;
            return;
          } else {
            data := null;
          }
        } else {
          var length := data.Length;
          var newData := new Option<Obj>[length + 2];
          var copied := ArrayCopy(data, 0, newData, 0, length);
          assert newData[..length] == data[..];
          data := newData;
          data[length] := key;
          data[length + 1] := value;
          assert data[..] == old(Slots()) + [key, value];
        }
      } else {
        data[index + 1] := value;
      }
    }

    /** The corrected update: an absent key with null changes nothing (see `SetDataIntended`). */
    method SetDataCorrected(key: Option<Obj>, value: Option<Obj>) returns (outcome: Outcome<Exception>)
      requires Valid()
      modifies this, data
      ensures Valid() && chatRooms == old(chatRooms)
      ensures key.None? ==> outcome == Fail(NullPointer) && Slots() == old(Slots())
      ensures key.Some? ==> outcome == Pass && Slots() == SetDataIntended(old(Slots()), key.value, value)
    {
      if key.None? {
        return Fail(NullPointer);
      }
      var index := DataIndexOf(key.value);
      if index == -1 && value.None? {
        return Pass;
      }
      outcome := SetData(key, value);
    }

    /** Appends a room; duplicates are allowed. */
    method AddChatRoom(room: RoomWrapper)
      modifies this
      ensures chatRooms == old(chatRooms) + [room] && data == old(data)
    {
      chatRooms := chatRooms + [room];
    }

    /** Removes the first occurrence of a room, if any. */
    method RemoveChatRoom(room: RoomWrapper)
      modifies this
      ensures chatRooms == RemoveFirst(old(chatRooms), room) && data == old(data)
    {
      var i := IndexOf(room);
      if i != -1 {
        chatRooms := chatRooms[..i] + chatRooms[i + 1..];
      }
    }

    /** Whether the room is in the list. */
    method ContainsChatRoom(room: RoomWrapper) returns (r: bool)
      ensures r <==> room in chatRooms
    {
      var i := IndexOf(room);
      r := i != -1;
    }

    /** The number of rooms in the list. */
    method CountChatRooms() returns (n: int)
      ensures n == |chatRooms|
    {
      n := |chatRooms|;
    }

    /** The room at `index`; an index outside the list is an IndexOutOfBoundsException. */
    method GetChatRoom(index: int) returns (r: Result<RoomWrapper, Exception>)
      ensures 0 <= index < |chatRooms| ==> r == Success(chatRooms[index])
      ensures !(0 <= index < |chatRooms|) ==> r == Failure(IndexOutOfBounds)
    {
      if 0 <= index < |chatRooms| {
        r := Success(chatRooms[index]);
      } else {
        r := Failure(IndexOutOfBounds);
      }
    }

    /** The index of the first occurrence of the room; -1 if none. */
    method IndexOf(room: RoomWrapper) returns (i: int)
      ensures i == FirstIndex(chatRooms, room)
    {
      i := 0;
      while i < |chatRooms|
        invariant 0 <= i <= |chatRooms| && room !in chatRooms[..i]
      {
        if chatRooms[i] == room {
          return;
        }
        assert chatRooms[..i + 1] == chatRooms[..i] + [chatRooms[i]];
        i := i + 1;
      }
      assert chatRooms[..i] == chatRooms;
      i := -1;
    }

    /** The first room whose room ID equals `chatRoomId`; null if none. */
    method FindChatRoomWrapperForChatRoomId(chatRoomId: string) returns (r: Option<RoomWrapper>)
      ensures r.None? <==> forall j :: 0 <= j < |chatRooms| ==> chatRooms[j].chatRoomId != chatRoomId
      ensures r.Some? ==> exists i :: 0 <= i < |chatRooms| && chatRooms[i] == r.value
                            && chatRooms[i].chatRoomId == chatRoomId
                            && forall j :: 0 <= j < i ==> chatRooms[j].chatRoomId != chatRoomId
    {
      var i := 0;
      while i < |chatRooms|
        invariant 0 <= i <= |chatRooms|
        invariant forall j :: 0 <= j < i ==> chatRooms[j].chatRoomId != chatRoomId
      {
        if chatRooms[i].chatRoomId == chatRoomId {
          return Some(chatRooms[i]);
        }
        i := i + 1;
      }
      r := None;
    }
  }

  /**
   * `System.arraycopy`: copies `length` elements from `src` at `srcPos` to
   * `dst` at `dstPos`, as if through a temporary copy; a negative position
   * or length, or a range past either end, is an IndexOutOfBoundsException
   * and copies nothing.
   */
  method ArrayCopy<T>(src: array<T>, srcPos: int, dst: array<T>, dstPos: int, length: int)
    returns (outcome: Outcome<Exception>)
    modifies dst
    ensures outcome.Fail? <==> srcPos < 0 || dstPos < 0 || length < 0
                                || srcPos + length > src.Length || dstPos + length > dst.Length
    ensures outcome.Fail? ==> outcome.error == IndexOutOfBounds && dst[..] == old(dst[..])
    ensures outcome.Pass? ==>
      && dst[..dstPos] == old(dst[..dstPos])
      && dst[dstPos..dstPos + length] == old(src[srcPos..srcPos + length])
      && dst[dstPos + length..] == old(dst[dstPos + length..])
  {
    if srcPos < 0 || dstPos < 0 || length < 0 || srcPos + length > src.Length || dstPos + length > dst.Length {
      return Fail(IndexOutOfBounds);
    }
    var tmp := src[srcPos..srcPos + length];
    forall i | 0 <= i < length {
      dst[dstPos + i] := tmp[i];
    }
    outcome := Pass;
  }
}
