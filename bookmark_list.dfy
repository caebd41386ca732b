/**
 * The bookmark list component: a cursor over a list of bookmark names,
 * moved by key events and reset whenever new properties arrive.
 */
module BookmarkListComponent {
  import opened Results

  /** The properties the component's state depends on: the optional list of bookmarks. */
  datatype Props = Props(bookmarks: Option<seq<string>>)

  /** Key codes the component tells apart; every other key is `Other`. */
  datatype KeyCode = Down | Up | PageDown | PageUp | Enter | Other(code: int)

  /** Input events: a key press, or anything else (resize, mouse, ...). */
  datatype InputEvent = Key(code: KeyCode) | NonKey

  /** `Msg`: what the component reports to its activity. */
  datatype Msg = NoMsg | OnSubmit(index: nat) | OnKey(key: KeyCode)

  /** The number of steps PageUp and PageDown move the cursor. */
  const PageStep := 8

  /** The last valid index of a list of `len` entries, 0 for an empty list. */
  function LastIndex(len: nat): nat {
    if len == 0 then 0 else len - 1
  }

  function Min(a: nat, b: nat): nat {
    if a <= b then a else b
  }

  function Max(a: nat, b: nat): nat {
    if a <= b then b else a
  }

  /**
   * Where `steps` clamped increments take the cursor: toward the last entry,
   * never past it, and never back from an index already beyond it.
   */
  function Forward(index: nat, len: nat, steps: nat): nat {
    Max(index, Min(index + steps, LastIndex(len)))
  }

  /** Where `steps` clamped decrements take the cursor: toward 0, never below it. */
  function Backward(index: nat, steps: nat): nat {
    if index >= steps then index - steps else 0
  }

  /** One clamped increment, as `incr_list_index` makes it. */
  function Incr(index: nat, len: nat): (next: nat)
    ensures index < len ==> next < len
    ensures len == 0 ==> next == index
    ensures next == index || next == index + 1
  {
    if index + 1 < len then index + 1 else index
  }

  /** One clamped decrement, as `decr_list_index` makes it. */
  function Decr(index: nat): (next: nat)
    ensures next <= index && (index > 0 ==> next == index - 1)
  {
    if index > 0 then index - 1 else 0
  }

  /** `steps` clamped increments, one after the other. */
  function IncrTimes(index: nat, len: nat, steps: nat): nat {
    if steps == 0 then index else Incr(IncrTimes(index, len, steps - 1), len)
  }

  /** `steps` clamped decrements, one after the other. */
  function DecrTimes(index: nat, steps: nat): nat {
    if steps == 0 then index else Decr(DecrTimes(index, steps - 1))
  }

  /** Repeated increments land where `Forward` says. */
  lemma {:induction false} IncrTimesIsForward(index: nat, len: nat, steps: nat)
    ensures IncrTimes(index, len, steps) == Forward(index, len, steps)
  {
    if steps > 0 {
      IncrTimesIsForward(index, len, steps - 1);
    }
  }

  /** Repeated decrements land where `Backward` says. */
  lemma {:induction false} DecrTimesIsBackward(index: nat, steps: nat)
    ensures DecrTimes(index, steps) == Backward(index, steps)
  {
    if steps > 0 {
      DecrTimesIsBackward(index, steps - 1);
    }
  }

  /**
   * The cursor stays on the list: from a valid index, moving either way keeps
   * it valid; moving far enough reaches the last entry or the first.
   */
  lemma CursorBounds(index: nat, len: nat, steps: nat)
    requires index <= LastIndex(len)
    ensures Forward(index, len, steps) <= LastIndex(len)
    ensures Backward(index, steps) <= index
    ensures index + steps >= LastIndex(len) ==> Forward(index, len, steps) == LastIndex(len)
    ensures Backward(index, steps) == 0 <==> steps >= index
  {
  }

  /** Two page moves in the same direction are one move of both lengths. */
  lemma CursorMovesCompose(index: nat, len: nat, a: nat, b: nat)
    ensures Forward(Forward(index, len, a), len, b) == Forward(index, len, a + b)
    ensures Backward(Backward(index, a), b) == Backward(index, a + b)
  {
  }

  /** `bookmarks_len`: the number of bookmarks in the properties, 0 when there are none. */
  function BookmarksLen(props: Props): (n: nat)
    ensures props.bookmarks.None? ==> n == 0
    ensures props.bookmarks.Some? ==> n == |props.bookmarks.value|
  {
    match props.bookmarks
    case None => 0
    case Some(bookmarks) => |bookmarks|
  }

  /** `OwnStates`: the selected index, the length of the list, and whether the component has focus. */
  class OwnStates {
    var listIndex: nat
    var listLen: nat
    var focus: bool

    /** `OwnStates::default`. */
    constructor ()
      ensures listIndex == 0 && listLen == 0 && !focus
    {
      listIndex, listLen, focus := 0, 0, false;
    }

    /** The cursor is on an entry of the list, or at 0 when the list is empty. */
    ghost predicate Valid()
      reads this
    {
      listIndex <= LastIndex(listLen)
    }

    method SetListLen(len: nat)
      modifies this
      ensures listLen == len
      ensures listIndex == old(listIndex) && focus == old(focus)
    {
      listLen := len;
    }

    method GetListIndex() returns (index: nat)
      ensures index == listIndex
    {
      index := listIndex;
    }

    /** Moves down one entry, staying on the last one. */
    method IncrListIndex()
      modifies this
      ensures listIndex == Incr(old(listIndex), listLen)
      ensures listLen == old(listLen) && focus == old(focus)
      ensures old(Valid()) ==> Valid()
    {
      if listIndex + 1 < listLen {
        listIndex := listIndex + 1;
      }
    }

    /** Moves up one entry, staying on the first one. */
    method DecrListIndex()
      modifies this
      ensures listIndex == Decr(old(listIndex))
      ensures listLen == old(listLen) && focus == old(focus)
      ensures old(Valid()) ==> Valid()
    {
      if listIndex > 0 {
        listIndex := listIndex - 1;
      }
    }

    method ResetListIndex()
      modifies this
      ensures listIndex == 0
      ensures listLen == old(listLen) && focus == old(focus)
      ensures Valid()
    {
      listIndex := 0;
    }
  }

  /** `BookmarkList`: the component, its properties and its states. */
  class BookmarkList {
    var props: Props
    const states: OwnStates

    ghost predicate Valid()
      reads this, states
    {
      states.Valid() && states.listLen == BookmarksLen(props)
    }

    /** `BookmarkList::new`: the cursor at the top, no focus, the length taken from the properties. */
    constructor (props: Props)
      ensures Valid() && fresh(states)
      ensures this.props == props
      ensures states.listIndex == 0 && states.listLen == BookmarksLen(props) && !states.focus
    {
      this.props := props;
      var s := new OwnStates();
      s.SetListLen(BookmarksLen(props));
      this.states := s;
    }

    /** New properties replace the old ones, the length is re-read and the cursor goes back to the top. */
    method Update(props: Props) returns (msg: Msg)
      modifies this, states
      ensures Valid()
      ensures this.props == props && msg == NoMsg
      ensures states.listLen == BookmarksLen(props) && states.listIndex == 0
      ensures states.focus == old(states.focus)
    {
      this.props := props;
      states.SetListLen(BookmarksLen(this.props));
      states.ResetListIndex();
      msg := NoMsg;
    }

    method GetProps() returns (p: Props)
      ensures p == props
    {
      p := props;
    }

    /** `get_state`: the selected index. */
    method GetState() returns (index: nat)
      ensures index == states.listIndex
    {
      index := states.GetListIndex();
    }

    /**
     * `on`: Down and Up move the cursor one entry, PageDown and PageUp up to
     * eight, clamped at both ends; Enter submits the selected index; any other
     * key is handed back to the activity; a non-key event does nothing.
     */
    method On(ev: InputEvent) returns (msg: Msg)
      modifies states
      ensures old(Valid()) ==> Valid()
      ensures props == old(props)
      ensures states.listLen == old(states.listLen) && states.focus == old(states.focus)
      ensures ev.NonKey? ==> msg == NoMsg && states.listIndex == old(states.listIndex)
      ensures ev == Key(Down) ==> msg == NoMsg && states.listIndex == Forward(old(states.listIndex), states.listLen, 1)
      ensures ev == Key(Up) ==> msg == NoMsg && states.listIndex == Backward(old(states.listIndex), 1)
      ensures ev == Key(PageDown) ==> msg == NoMsg && states.listIndex == Forward(old(states.listIndex), states.listLen, PageStep)
      ensures ev == Key(PageUp) ==> msg == NoMsg && states.listIndex == Backward(old(states.listIndex), PageStep)
      ensures ev == Key(Enter) ==> msg == OnSubmit(old(states.listIndex)) && states.listIndex == old(states.listIndex)
      ensures ev.Key? && ev.code.Other? ==> msg == OnKey(ev.code) && states.listIndex == old(states.listIndex)
    {
      match ev {
        case NonKey =>
          msg := NoMsg;
        case Key(code) =>
          match code {
            case Down =>
              states.IncrListIndex();
              msg := NoMsg;
            case Up =>
              states.DecrListIndex();
              msg := NoMsg;
            case PageDown =>
              ghost var start := states.listIndex;
              for k := 0 to PageStep
                invariant states.listLen == old(states.listLen) && states.focus == old(states.focus)
                invariant states.listIndex == IncrTimes(start, states.listLen, k)
              {
                states.IncrListIndex();
              }
              IncrTimesIsForward(start, states.listLen, PageStep);
              msg := NoMsg;
            case PageUp =>
              ghost var start := states.listIndex;
              for k := 0 to PageStep
                invariant states.listLen == old(states.listLen) && states.focus == old(states.focus)
                invariant states.listIndex == DecrTimes(start, k)
              {
                states.DecrListIndex();
              }
              DecrTimesIsBackward(start, PageStep);
              msg := NoMsg;
            case Enter =>
              var index := GetState();
              msg := OnSubmit(index);
            case Other(_) =>
              msg := OnKey(code);
          }
      }
    }

    method Blur()
      modifies states
      ensures !states.focus
      ensures states.listIndex == old(states.listIndex) && states.listLen == old(states.listLen)
    {
      states.focus := false;
    }

    method Active()
      modifies states
      ensures states.focus
      ensures states.listIndex == old(states.listIndex) && states.listLen == old(states.listLen)
    {
      states.focus := true;
    }
  }

  /** The trace of the component's own test: new, focus, two updates, then key events. */
  method ComponentTrace() {
    var c := new BookmarkList(Props(Some(["file1", "file2"])));
    assert c.states.listIndex == 0 && c.states.listLen == 2 && !c.states.focus;
    c.Active();
    assert c.states.focus;
    c.Blur();
    assert !c.states.focus;
    var p := c.GetProps();
    var m := c.Update(p);
    assert m == NoMsg;
    c.states.listIndex := c.states.listIndex + 1;
    assert c.states.listIndex == 1;
    m := c.Update(Props(Some(["file1", "file2", "file3"])));
    assert c.states.listIndex == 0 && c.states.listLen == 3;
    var index := c.GetState();
    assert index == 0;
    m := c.On(Key(Down));
    assert m == NoMsg && c.states.listIndex == 1;
    m := c.On(Key(Up));
    assert m == NoMsg && c.states.listIndex == 0;
    m := c.On(Key(PageDown));
    assert m == NoMsg && c.states.listIndex == 2;
    m := c.On(Key(PageUp));
    assert m == NoMsg && c.states.listIndex == 0;
    m := c.On(Key(Enter));
    assert m == OnSubmit(0);
    m := c.On(Key(Other(8)));
    assert m == OnKey(Other(8));
  }
}
