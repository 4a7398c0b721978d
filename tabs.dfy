/**
 The operations tab component: a row of tab buttons and a set of content
 panels, each with an "active" flag. A click inside the tab container
 deactivates everything, then activates the clicked tab and the panel
 whose modifier class matches that tab's `data-tab` value.
 */
module Tabs {
  import opened Wrappers

  /** `n` flags with only flag `k` raised (none at all when `k` is out of range). */
  function OnlyAt(n: nat, k: int): seq<bool>
  {
    seq(n, i => i == k)
  }

  /** `n` lowered flags. */
  function NoneActive(n: nat): seq<bool>
  {
    seq(n, _ => false)
  }

  /** The number of raised flags. */
  function CountActive(s: seq<bool>): nat
    decreases |s|
  {
    if s == [] then 0 else (if s[0] then 1 else 0) + CountActive(s[1..])
  }

  /**
   The first panel whose key is `key`, as a selector query on the panels'
   modifier classes returns the first match in document order, or nothing.
   */
  function FirstWithKey(keys: seq<string>, key: string): (r: Option<nat>)
    ensures r.Some? ==> r.value < |keys| && keys[r.value] == key
    ensures r.Some? ==> forall j :: 0 <= j < r.value ==> keys[j] != key
    ensures r.None? <==> key !in keys
    decreases |keys|
  {
    if keys == [] then None
    else if keys[0] == key then Some(0)
    else match FirstWithKey(keys[1..], key)
      case None => None
      case Some(j) => Some(j + 1)
  }

  /**
   The modifier the clear loop removes from every panel before the lookup. A
   tab whose key is this modifier builds the selector of the class that has
   just been removed, so its lookup finds nothing.
   */
  const ActiveKey: string := "active"

  /**
   The lookup of the panel for a tab whose key is `key`, run after every
   panel's active modifier has been removed: the first panel carrying the key,
   or nothing when no panel carries it or the key is the active modifier.
   */
  function ContentFor(keys: seq<string>, key: string): (r: Option<nat>)
    ensures r.None? <==> key == ActiveKey || key !in keys
    ensures r.Some? ==> r.value < |keys| && keys[r.value] == key
    ensures r.Some? ==> forall j :: 0 <= j < r.value ==> keys[j] != key
  {
    if key == ActiveKey then None else FirstWithKey(keys, key)
  }

  /** The panel flags after a click on a tab whose key is `key`: only the first matching panel is active. */
  function PanelFlags(keys: seq<string>, key: string): (r: seq<bool>)
    ensures |r| == |keys|
    // panel c is active exactly when it is the first one whose key matches,
    // and the key is not the active modifier the clear loop removed
    ensures forall c :: 0 <= c < |keys| ==> (r[c] <==> key != ActiveKey && keys[c] == key && key !in keys[..c])
  {
    match ContentFor(keys, key)
    case Some(c) => OnlyAt(|keys|, c)
    case None => NoneActive(|keys|)
  }

  /** No flag is raised in a row of lowered flags. */
  lemma {:induction false} NoneActiveCountsZero(n: nat)
    ensures CountActive(NoneActive(n)) == 0
  {
    if n > 0 {
      assert NoneActive(n)[1..] == NoneActive(n - 1);
      NoneActiveCountsZero(n - 1);
    }
  }

  /** Raising one flag in range leaves exactly one flag raised. */
  lemma {:induction false} OnlyAtCountsOne(n: nat, k: int)
    requires 0 <= k < n
    ensures CountActive(OnlyAt(n, k)) == 1
  {
    var s := OnlyAt(n, k);
    if k == 0 {
      assert s[1..] == NoneActive(n - 1);
      NoneActiveCountsZero(n - 1);
    } else {
      assert s[1..] == OnlyAt(n - 1, k - 1);
      OnlyAtCountsOne(n - 1, k - 1);
    }
  }

  /**
   The tab component on a page. `tabKey[t]` is the `data-tab` value of tab `t`,
   `contentKey[c]` the key in content panel `c`'s modifier class.
   */
  class TabPanel {
    const tabActive: array<bool>
    const contentActive: array<bool>
    const tabKey: seq<string>
    const contentKey: seq<string>

    ghost predicate Valid()
      reads this
    {
      |tabKey| == tabActive.Length && |contentKey| == contentActive.Length
      && tabActive != contentActive
    }

    /** Exactly one tab is active. */
    ghost predicate OneTabActive()
      reads this, tabActive
    {
      CountActive(tabActive[..]) == 1
    }

    constructor (tabs: array<bool>, contents: array<bool>, tabKeys: seq<string>, contentKeys: seq<string>)
      requires |tabKeys| == tabs.Length && |contentKeys| == contents.Length && tabs != contents
      ensures Valid()
      ensures tabActive == tabs && contentActive == contents
      ensures tabKey == tabKeys && contentKey == contentKeys
    {
      tabActive, contentActive := tabs, contents;
      tabKey, contentKey := tabKeys, contentKeys;
    }

    /**
     A click in the tab container. `clicked` is the tab the click landed in, or
     None when it landed outside every tab. `ok` is false when the lookup finds
     no panel for the clicked tab's key (no panel carries it, or it is the
     active modifier just removed): the handler then stops with an error after
     the flags have already been updated.
     */
    method Click(clicked: Option<nat>) returns (ok: bool)
      requires Valid()
      requires clicked.Some? ==> clicked.value < tabActive.Length
      modifies tabActive, contentActive
      ensures clicked.None? ==> ok && unchanged(tabActive, contentActive)
      ensures clicked.Some? ==> tabActive[..] == OnlyAt(tabActive.Length, clicked.value)
      ensures clicked.Some? ==> ok == (tabKey[clicked.value] != ActiveKey && tabKey[clicked.value] in contentKey)
      ensures clicked.Some? ==> contentActive[..] == PanelFlags(contentKey, tabKey[clicked.value])
      ensures clicked.Some? ==> OneTabActive()
      ensures clicked.Some? && ok ==> CountActive(contentActive[..]) == 1
    {
      if clicked.None? {
        return true;
      }
      var t := clicked.value;

      var i := 0;
      while i < tabActive.Length
        invariant 0 <= i <= tabActive.Length
        invariant forall j :: 0 <= j < i ==> !tabActive[j]
        invariant unchanged(contentActive)
      {
        tabActive[i] := false;
        i := i + 1;
      }
      i := 0;
      while i < contentActive.Length
        invariant 0 <= i <= contentActive.Length
        invariant forall j :: 0 <= j < i ==> !contentActive[j]
        invariant forall j :: 0 <= j < tabActive.Length ==> !tabActive[j]
      {
        contentActive[i] := false;
        i := i + 1;
      }

      tabActive[t] := true;
      assert tabActive[..] == OnlyAt(tabActive.Length, t);
      OnlyAtCountsOne(tabActive.Length, t);

      var target := ContentFor(contentKey, tabKey[t]);
      match target
      case None =>
        assert contentActive[..] == NoneActive(contentActive.Length);
        ok := false;
      case Some(c) =>
        contentActive[c] := true;
        assert contentActive[..] == OnlyAt(contentActive.Length, c);
        OnlyAtCountsOne(contentActive.Length, c);
        ok := true;
    }
  }
}
