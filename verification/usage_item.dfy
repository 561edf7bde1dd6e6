/**
 * `F5_Item` of the where-used report (f5_where_used.py): a named object of
 * the load balancer together with the list of the paths that use it, in the
 * order they were found, duplicates kept.
 */
module UsageItem {

  /** The text that introduces each usage in the report. */
  const Bullet := "\n\t* "

  /** The usage text of the report: ":" and then each usage on its own
      bulleted line, in order. */
  function UsageStr(usage: seq<string>): string
  {
    if usage == [] then ":"
    else UsageStr(usage[..|usage| - 1]) + Bullet + usage[|usage| - 1]
  }

  /** The characters the usages add to the text: the bullet and the path, each. */
  function UsageLen(usage: seq<string>): nat
  {
    if usage == [] then 0
    else UsageLen(usage[..|usage| - 1]) + |Bullet| + |usage[|usage| - 1]|
  }

  /** The text is ":" followed by 4 + |u| characters for each usage u. */
  lemma {:induction false} UsageStrLength(usage: seq<string>)
    ensures |UsageStr(usage)| == 1 + UsageLen(usage)
    ensures UsageStr(usage)[0] == ':'
  {
    if usage != [] {
      UsageStrLength(usage[..|usage| - 1]);
    }
  }

  /** The k-th usage stands, after its bullet, at the place fixed by the
      usages before it: the text can be read back entry by entry. */
  lemma {:induction false} UsageStrEntry(usage: seq<string>, k: nat)
    requires k < |usage|
    ensures 1 + UsageLen(usage[..k]) + |Bullet| + |usage[k]| <= |UsageStr(usage)|
    ensures UsageStr(usage)[1 + UsageLen(usage[..k])..][..|Bullet|] == Bullet
    ensures UsageStr(usage)[1 + UsageLen(usage[..k]) + |Bullet|..][..|usage[k]|] == usage[k]
  {
    var init := usage[..|usage| - 1];
    var last := usage[|usage| - 1];
    UsageStrLength(init);
    UsageStrLength(usage);
    if k < |usage| - 1 {
      UsageStrEntry(init, k);
      assert init[..k] == usage[..k];
      var s := UsageStr(init);
      assert UsageStr(usage) == s + Bullet + last;
      assert UsageStr(usage)[..|s|] == s;
    } else {
      assert usage[..k] == init;
      var s := UsageStr(init);
      assert UsageStr(usage) == s + Bullet + last;
      assert |s| == 1 + UsageLen(usage[..k]);
    }
  }

  class Item {
    const name: string
    var usage: seq<string>

    /** A new item has no usage. */
    constructor (name: string)
      ensures this.name == name && usage == []
      ensures !IsUsed()
    {
      this.name := name;
      usage := [];
    }

    /** `add_usage`: appends at the end, keeping earlier entries and duplicates. */
    method AddUsage(u: string)
      modifies this
      ensures usage == old(usage) + [u]
      ensures |usage| == |old(usage)| + 1 && usage[..|old(usage)|] == old(usage) && usage[|usage| - 1] == u
      ensures IsUsed()
    {
      usage := usage + [u];
    }

    /** `get_usage`: the usage list itself. */
    function GetUsage(): (r: seq<string>)
      reads this
      ensures r == usage
    {
      usage
    }

    /** `is_used`: true exactly when some usage was recorded. */
    predicate IsUsed()
      reads this
      ensures IsUsed() <==> |usage| > 0
    {
      if |usage| == 0 then false else true
    }

    /** `get_usage_str`, accumulating the text usage by usage. */
    method GetUsageStr() returns (s: string)
      ensures s == UsageStr(usage)
      ensures |s| == 1 + UsageLen(usage) && s[0] == ':'
    {
      s := ":";
      for i := 0 to |usage|
        invariant s == UsageStr(usage[..i])
      {
        assert usage[..i + 1][..i] == usage[..i];
        s := s + Bullet + usage[i];
      }
      assert usage[..|usage|] == usage;
      UsageStrLength(usage);
    }
  }
}
