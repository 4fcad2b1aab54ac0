/** The action translator `handle_model_action`: switch to the newest tab, then turn one
    model action into the browser primitives it performs, containing any failure. */
module Translator {
  import opened Wrappers
  import opened Text

  /** An open page (tab); pages are compared by identity, as Playwright page objects are. */
  type PageId = nat

  /** The model's proposed action, dispatched on its `type` tag. `Unrecognized` stands
      for every tag other than the five handled ones. */
  datatype Action =
    | Click(x: int, y: int, button: string)
    | Scroll(x: int, y: int, scrollX: int, scrollY: int)
    | Keypress(keys: seq<string>)
    | Type(text: string)
    | Wait
    | Unrecognized(kind: string)

  /** A browser primitive: `mouse.click`, `mouse.move`, `window.scrollBy` (through
      `page.evaluate`), `keyboard.press`, `keyboard.type`, and `time.sleep`. */
  datatype Command =
    | MouseClick(x: int, y: int, button: string)
    | MouseMove(x: int, y: int)
    | ScrollBy(dx: int, dy: int)
    | Press(key: string)
    | TypeText(text: string)
    | Sleep(seconds: nat)

  /** The `type` tags the translator dispatches on. */
  const KnownKinds: set<string> := {"click", "scroll", "keypress", "type", "wait"}

  /** Seconds a `wait` action sleeps. */
  const WaitSeconds: nat := 2

  /** A primitive as issued: the page whose mouse or keyboard it went to, and the
      primitive itself. */
  datatype Issued = On(page: PageId, command: Command)

  /** The outcome of one call: the page it returns, the primitives that completed, and
      whether an exception was raised (and contained). */
  datatype Handled = Handled(page: PageId, performed: seq<Issued>, raised: bool)

  /** The primitives `cmds`, each issued on `page`. */
  function OnPage(page: PageId, cmds: seq<Command>): (issued: seq<Issued>)
    ensures |issued| == |cmds|
    ensures forall i :: 0 <= i < |cmds| ==> issued[i] == On(page, cmds[i])
  {
    if cmds == [] then [] else [On(page, cmds[0])] + OnPage(page, cmds[1..])
  }

  /** Tab switch: when more than one page is open and the last is not the active one,
      the last becomes active. */
  function SwitchTab(pages: seq<PageId>, page: PageId): (active: PageId)
    ensures |pages| > 1 ==> active == pages[|pages| - 1]
    ensures |pages| <= 1 ==> active == page
  {
    if |pages| > 1 && pages[|pages| - 1] != page then pages[|pages| - 1] else page
  }

  /** Switching twice against the same page list is switching once. */
  lemma SwitchTabIdempotent(pages: seq<PageId>, page: PageId)
    ensures SwitchTab(pages, SwitchTab(pages, page)) == SwitchTab(pages, page)
  {
  }

  /** The active page is always the one passed in or one of the open pages. */
  lemma SwitchTabStaysKnown(pages: seq<PageId>, page: PageId)
    ensures SwitchTab(pages, page) == page || SwitchTab(pages, page) in pages
  {
  }

  /** A key name as pressed: "enter" in any case is the Enter key, "space" in any case is
      a literal space, every other name is forwarded verbatim. */
  function NormalizeKey(k: string): (key: string)
    ensures key == k || Lower(k) == "enter" || Lower(k) == "space"
  {
    if Lower(k) == "enter" then "Enter"
    else if Lower(k) == "space" then " "
    else k
  }

  /** The normaliser only rewrites the two synonyms; it is case-insensitive on them. */
  lemma NormalizeKeySpec(k: string)
    ensures NormalizeKey(k) != k ==> Lower(k) == "enter" || Lower(k) == "space"
    ensures NormalizeKey(k) == "Enter" <==> Lower(k) == "enter"
    ensures NormalizeKey(k) == " " <==> Lower(k) == "space" || k == " "
  {
    if k == "Enter" {
      assert Lower(k) == "enter";
    }
    if k == " " {
      assert Lower(k) == " ";
    }
  }

  /** Any two spellings of the same key name, up to case, press the same key when the
      name is one of the synonyms. */
  lemma NormalizeKeyCaseInsensitive(a: string, b: string)
    requires Lower(a) == Lower(b)
    requires Lower(a) == "enter" || Lower(a) == "space"
    ensures NormalizeKey(a) == NormalizeKey(b)
  {
  }

  /** "Enter", "ENTER" and "enter" all press Enter. */
  lemma EnterSpellings(k: string)
    requires k == "Enter" || k == "ENTER" || k == "enter"
    ensures NormalizeKey(k) == "Enter"
  {
    forall i | 0 <= i < |k| ensures LowerChar(k[i]) == "enter"[i] {
    }
    LowerIs(k, "enter");
  }

  /** "Space", "SPACE" and "space" all press a literal space. */
  lemma SpaceSpellings(k: string)
    requires k == "Space" || k == "SPACE" || k == "space"
    ensures NormalizeKey(k) == " "
  {
    forall i | 0 <= i < |k| ensures LowerChar(k[i]) == "space"[i] {
    }
    LowerIs(k, "space");
    assert Lower(k) != "enter";
  }

  /** The keypress loop: one `Press` per key, in the order given. */
  function KeyPresses(keys: seq<string>): (cmds: seq<Command>)
    ensures |cmds| == |keys|
    ensures forall i :: 0 <= i < |keys| ==> cmds[i] == Press(NormalizeKey(keys[i]))
  {
    if keys == [] then [] else [Press(NormalizeKey(keys[0]))] + KeyPresses(keys[1..])
  }

  /** Pressing `a` then `b` is pressing `a + b`: the loop keeps order and drops nothing. */
  lemma KeyPressesAppend(a: seq<string>, b: seq<string>)
    ensures KeyPresses(a + b) == KeyPresses(a) + KeyPresses(b)
  {
    var l, r := KeyPresses(a + b), KeyPresses(a) + KeyPresses(b);
    forall i | 0 <= i < |l| ensures l[i] == r[i] {
      if i < |a| {
        assert (a + b)[i] == a[i];
      } else {
        assert (a + b)[i] == b[i - |a|];
      }
    }
  }

  /** The primitives one action performs, in order. */
  function Commands(action: Action): (cmds: seq<Command>)
    ensures action.Keypress? ==> |cmds| == |action.keys|
    ensures !action.Keypress? ==> |cmds| <= 2
  {
    match action
    case Click(x, y, button) => [MouseClick(x, y, button)]
    case Scroll(x, y, sx, sy) => [MouseMove(x, y), ScrollBy(sx, sy)]
    case Keypress(keys) => KeyPresses(keys)
    case Type(text) => [TypeText(text)]
    case Wait => [Sleep(WaitSeconds)]
    case Unrecognized(_) => []
  }

  /** The dispatch table: click is exactly one click at the given point with the given
      button; scroll is a move to the point followed by one scroll by the deltas; keypress
      is one press per key; type is one injection of the whole text; wait is a two-second
      sleep; anything else does nothing. */
  lemma DispatchTable(action: Action)
    ensures action.Click? ==> Commands(action) == [MouseClick(action.x, action.y, action.button)]
    ensures action.Scroll? ==>
      Commands(action) == [MouseMove(action.x, action.y), ScrollBy(action.scrollX, action.scrollY)]
    ensures action.Keypress? ==> Commands(action) == KeyPresses(action.keys)
    ensures action.Type? ==> Commands(action) == [TypeText(action.text)]
    ensures action.Wait? ==> Commands(action) == [Sleep(2)]
    ensures action.Unrecognized? ==> Commands(action) == []
  {
  }

  /** Which primitives an action may use: clicks only for click, moves and scrolls only
      for scroll, presses only for keypress, one atomic injection for type, and sleeping
      only for wait. */
  lemma CommandKinds(action: Action)
    ensures forall c :: c in Commands(action) && c.MouseClick? ==> action.Click?
    ensures forall c :: c in Commands(action) && (c.MouseMove? || c.ScrollBy?) ==> action.Scroll?
    ensures forall c :: c in Commands(action) && c.Press? ==> action.Keypress?
    ensures forall c :: c in Commands(action) && c.TypeText? ==> action.Type? && c.text == action.text
    ensures forall c :: c in Commands(action) && c.Sleep? ==> action.Wait? && c.seconds == 2
  {
  }

  /** An action performs nothing exactly when it is unrecognised or presses no keys. */
  lemma CommandsEmptyIff(action: Action)
    ensures Commands(action) == [] <==> action.Unrecognized? || (action.Keypress? && action.keys == [])
  {
  }

  /** One call of `handle_model_action`. `contexts` lists the pages of each browser
      context (the source reads `contexts[0]`, which raises when there is none); when
      `failAt` is `Some(k)` the k-th primitive raises, after the ones before it completed.
      An exception is contained: the function returns the page binding as it stands. */
  function HandleModelAction(contexts: seq<seq<PageId>>, page: PageId, action: Action,
                             failAt: Option<nat>): (h: Handled)
    ensures |h.performed| <= |Commands(action)|
    ensures forall i :: 0 <= i < |h.performed| ==> h.performed[i] == On(h.page, Commands(action)[i])
    ensures !h.raised ==> |h.performed| == |Commands(action)|
    ensures h.raised <==>
      |contexts| == 0 || (failAt.Some? && failAt.value < |Commands(action)|)
    ensures |contexts| == 0 ==> h.page == page && h.performed == []
    ensures |contexts| > 0 ==> h.page == SwitchTab(contexts[0], page)
    ensures h.raised && |contexts| > 0 ==> |h.performed| == failAt.value
  {
    if |contexts| == 0 then
      Handled(page, [], true)
    else
      var active := SwitchTab(contexts[0], page);
      var cmds := Commands(action);
      match failAt
      case Some(k) =>
        if k < |cmds| then Handled(active, OnPage(active, cmds[..k]), true)
        else Handled(active, OnPage(active, cmds), false)
      case None =>
        Handled(active, OnPage(active, cmds), false)
  }

  /** With a single open tab the active page never changes, whatever happens. */
  lemma SingleTabKeepsPage(pages: seq<PageId>, page: PageId, action: Action, failAt: Option<nat>)
    requires |pages| <= 1
    ensures HandleModelAction([pages], page, action, failAt).page == page
  {
  }

  /** A new tab surfaced since the last action: the switch happens before dispatch, so
      every primitive goes to the new tab, and the new tab is returned even when the
      action then fails. */
  lemma NewTabIsAdopted(pages: seq<PageId>, page: PageId, action: Action, failAt: Option<nat>)
    requires |pages| > 1 && pages[|pages| - 1] != page
    ensures var h := HandleModelAction([pages], page, action, failAt);
      && h.page == pages[|pages| - 1]
      && forall i :: 0 <= i < |h.performed| ==> h.performed[i].page == pages[|pages| - 1]
  {
  }

  /** An unrecognised action performs nothing and raises nothing once the pages are read. */
  lemma UnrecognizedIsNoOp(contexts: seq<seq<PageId>>, page: PageId, kind: string, failAt: Option<nat>)
    requires |contexts| > 0 && kind !in KnownKinds
    ensures var h := HandleModelAction(contexts, page, Unrecognized(kind), failAt);
      !h.raised && h.performed == [] && h.page == SwitchTab(contexts[0], page)
  {
  }
}
