/** xdr/tag.go: the struct tag that selects optional fields and union arms. */
module XdrTag {
  /** strings.Index(s, ","), with -1 for "not found". */
  function CommaIndex(s: string): (i: int)
    ensures -1 <= i < |s|
    ensures i >= 0 ==> s[i] == ','
    ensures forall k :: 0 <= k < (if i < 0 then |s| else i) ==> s[k] != ','
  {
    if s == "" then -1
    else if s[0] == ',' then 0
    else
      var i := CommaIndex(s[1..]);
      if i < 0 then -1 else i + 1
  }

  /** The part of a value from its first comma on, or the whole value if it has none. */
  function FromComma(val: string): string {
    var i := CommaIndex(val);
    if i >= 0 then val[i..] else val
  }

  /** The comma-separated items of a tag: a tag with k commas has k + 1 items, some possibly empty. */
  function Items(tag: string): (items: seq<string>)
    ensures |items| >= 1
    decreases |tag|
  {
    var i := CommaIndex(tag);
    if i < 0 then [tag] else [tag[..i]] + Items(tag[i + 1..])
  }

  predicate IsItem(item: string, opt: string) {
    item == opt || (|item| > |opt| && item[..|opt|] == opt && item[|opt|] == '=')
  }

  function ItemValue(item: string, opt: string): string
    requires IsItem(item, opt)
  {
    if item == opt then "true" else item[|opt| + 1..]
  }

  /** The value of the first item that is `opt` or `opt=value`; "" when there is none. */
  function Get(tag: string, opt: string): string {
    FirstValue(Items(tag), opt)
  }

  function FirstValue(items: seq<string>, opt: string): string {
    if items == [] then ""
    else if IsItem(items[0], opt) then ItemValue(items[0], opt)
    else FirstValue(items[1..], opt)
  }

  function Join(items: seq<string>): string
    requires |items| >= 1
  {
    if |items| == 1 then items[0] else items[0] + "," + Join(items[1..])
  }

  lemma JoinCons(head: string, rest: seq<string>)
    requires |rest| >= 1
    ensures Join([head] + rest) == head + "," + Join(rest)
  {
    assert ([head] + rest)[1..] == rest;
  }

  /** Items is the splitting of the tag: the items are free of commas and joining them gives the tag back. */
  lemma {:induction false} ItemsSplit(tag: string)
    ensures Join(Items(tag)) == tag
    ensures forall k :: 0 <= k < |Items(tag)| ==> ',' !in Items(tag)[k]
    decreases |tag|
  {
    var i := CommaIndex(tag);
    if i >= 0 {
      var head, rest := tag[..i], Items(tag[i + 1..]);
      ItemsSplit(tag[i + 1..]);
      JoinCons(head, rest);
      assert tag == head + "," + tag[i + 1..];
    }
  }

  /** Get answers with the first matching item, and with "" exactly when no item matches or the match is empty. */
  lemma {:induction false} FirstMatch(items: seq<string>, opt: string, k: nat)
    requires k <= |items|
    requires forall j :: 0 <= j < k ==> !IsItem(items[j], opt)
    requires k < |items| ==> IsItem(items[k], opt)
    ensures FirstValue(items, opt) == if k < |items| then ItemValue(items[k], opt) else ""
  {
    if k > 0 {
      FirstMatch(items[1..], opt, k - 1);
    }
  }

  /** A lookup of "union" never stops at a case label, whatever else the tag holds. */
  lemma UnionSkipsCaseLabels(items: seq<string>, n: string)
    ensures FirstValue(["unioncase=" + n] + items, "union") == FirstValue(items, "union")
    ensures FirstValue(["unionnotcase=" + n] + items, "union") == FirstValue(items, "union")
  {
    assert (["unioncase=" + n] + items)[1..] == items;
    assert (["unionnotcase=" + n] + items)[1..] == items;
  }

  /** A tag that is a single item. */
  lemma SingleItem(tag: string, opt: string)
    requires ',' !in tag
    ensures Get(tag, opt) == if IsItem(tag, opt) then ItemValue(tag, opt) else ""
  {
    assert Items(tag) == [tag];
    assert FirstValue([tag][1..], opt) == "";
  }

  /** Cutting the first item off a tag that has a comma. */
  lemma CutItem(tag: string, opt: string)
    requires CommaIndex(tag) >= 0
    ensures var i := CommaIndex(tag);
            Get(tag, opt) == if IsItem(tag[..i], opt) then ItemValue(tag[..i], opt) else Get(tag[i + 1..], opt)
  {
    var i := CommaIndex(tag);
    assert Items(tag)[1..] == Items(tag[i + 1..]);
  }

  /** xdrtag.Get: cut one item off the front per round. */
  method Lookup(t: string, opt: string) returns (val: string)
    requires opt != ""
    ensures val == Get(t, opt)
  {
    var tag := t;
    SingleItem("", opt);
    while tag != ""
      invariant Get(t, opt) == Get(tag, opt)
      decreases |tag|
    {
      var next := "";
      var i := CommaIndex(tag);
      if i >= 0 {
        CutItem(tag, opt);
        tag, next := tag[..i], tag[i + 1..];
      } else {
        SingleItem(tag, opt);
      }
      if tag == opt {
        return "true";
      }
      if |tag| > |opt| && tag[..|opt|] == opt && tag[|opt|] == '=' {
        val := tag[|opt| + 1..];
        val := FromComma(val);
        return val;
      }
      tag := next;
    }
    val := "";
  }

  // ---------------------------------------------------------------- the deprecated xdropaque tag

  predicate Lists(tag: string, opt: string) {
    exists k :: 0 <= k < |Items(tag)| && IsItem(Items(tag)[k], opt)
  }

  lemma {:induction false} ItemsAppend(tag: string, item: string)
    requires ',' !in item
    ensures Items(tag + "," + item) == Items(tag) + [item]
    decreases |tag|
  {
    var all, i := tag + "," + item, CommaIndex(tag);
    if i < 0 {
      assert all[..|tag|] == tag && all[|tag| + 1..] == item;
      CommaAt(all, |tag|);
      assert CommaIndex(item) < 0;
    } else {
      assert all[..i] == tag[..i] && all[i + 1..] == tag[i + 1..] + "," + item;
      CommaAt(all, i);
      ItemsAppend(tag[i + 1..], item);
    }
  }

  lemma CommaAt(s: string, i: nat)
    requires i < |s| && s[i] == ',' && ',' !in s[..i]
    ensures CommaIndex(s) == i
  {
    forall k | 0 <= k < i ensures s[k] != ',' {
      assert s[k] == s[..i][k];
    }
  }

  lemma {:induction false} FirstValueAppend(items: seq<string>, item: string, opt: string)
    ensures FirstValue(items + [item], opt) ==
            if exists k :: 0 <= k < |items| && IsItem(items[k], opt) then FirstValue(items, opt) else FirstValue([item], opt)
  {
    var all := items + [item];
    if items == [] {
      assert all == [item];
    } else if !IsItem(items[0], opt) {
      assert all[1..] == items[1..] + [item];
      FirstValueAppend(items[1..], item, opt);
      assert (exists k :: 0 <= k < |items| && IsItem(items[k], opt)) <==>
             (exists k :: 0 <= k < |items[1..]| && IsItem(items[1..][k], opt)) by {
        forall k | 0 <= k < |items| && IsItem(items[k], opt) ensures k >= 1 && IsItem(items[1..][k - 1], opt) { }
      }
    }
  }

  /** parseTag, given the values of the xdr and xdropaque keys: the deprecated key turns elementwise coding on unless
      the tag settles that itself, and changes no other option. */
  method ParseTag(xdr: string, xdropaque: string) returns (t: string)
    ensures forall opt :: opt != "" && '=' !in opt ==>
              Get(t, opt) == if xdropaque == "false" && opt == "opaque" && !Lists(xdr, opt) then "false" else Get(xdr, opt)
  {
    t := xdr;
    if xdropaque == "false" {
      if t == "" {
        t := ",";
      }
      ghost var base := t;
      t := t + ",opaque=false";
      assert t == base + "," + "opaque=false";
      forall opt | opt != "" && '=' !in opt
        ensures Get(t, opt) == if opt == "opaque" && !Lists(xdr, opt) then "false" else Get(xdr, opt)
      {
        OpaqueAppended(xdr, base, opt);
      }
    }
  }

  lemma OpaqueItem(opt: string)
    requires '=' !in opt
    ensures FirstValue(["opaque=false"], opt) == if opt == "opaque" then "false" else ""
  {
    var item := "opaque=false";
    assert item[..6] == "opaque" && item[7..] == "false";
    if 6 < |opt| <= |item| {
      assert item[..|opt|][6] == '=';
    }
    FirstMatch([item], opt, if IsItem(item, opt) then 0 else 1);
  }

  /** The tag that parseTag starts from lists what the xdr key lists. */
  lemma BaseLists(xdr: string, base: string, opt: string)
    requires opt != "" && base == if xdr == "" then "," else xdr
    ensures Get(base, opt) == Get(xdr, opt) && (Lists(base, opt) <==> Lists(xdr, opt))
    ensures !Lists(xdr, opt) ==> Get(xdr, opt) == ""
  {
    if xdr == "" {
      assert Items("") == [""] && CommaIndex(",") == 0;
      assert Items(",") == ["", ""];
      FirstMatch(["", ""], opt, 2);
      FirstMatch([""], opt, 1);
    } else if !Lists(xdr, opt) {
      FirstMatch(Items(xdr), opt, |Items(xdr)|);
    }
  }

  lemma OpaqueAppended(xdr: string, base: string, opt: string)
    requires opt != "" && '=' !in opt && base == if xdr == "" then "," else xdr
    ensures Get(base + "," + "opaque=false", opt) == if opt == "opaque" && !Lists(xdr, opt) then "false" else Get(xdr, opt)
  {
    hide Items, FirstValue, IsItem;
    ItemsAppend(base, "opaque=false");
    FirstValueAppend(Items(base), "opaque=false", opt);
    OpaqueItem(opt);
    BaseLists(xdr, base, opt);
  }

  /** The options the codec asks for, on the tags the repository's types carry. */
  lemma UnionTag()
    ensures Get("union", "union") == "true"
    ensures Get("union", "optional") == Get("union", "opaque") == ""
    ensures Get("union", "unioncase") == Get("union", "unionnotcase") == ""
  {
    var t := "union";
    SingleItem(t, "union");
    SingleItem(t, "optional");
    SingleItem(t, "opaque");
    SingleItem(t, "unioncase");
    SingleItem(t, "unionnotcase");
  }

  lemma CaseTag(n: string)
    requires ',' !in n
    ensures Get("unioncase=" + n, "unioncase") == n
    ensures Get("unioncase=" + n, "union") == Get("unioncase=" + n, "unionnotcase") == ""
    ensures Get("unioncase=" + n, "optional") == Get("unioncase=" + n, "opaque") == ""
  {
    hide Get, Items, FirstValue;
    var t := "unioncase=" + n;
    SingleItem(t, "union");
    SingleItem(t, "optional");
    SingleItem(t, "opaque");
    SingleItem(t, "unionnotcase");
    assert t[..9] == "unioncase" && t[10..] == n;
    SingleItem(t, "unioncase");
  }

  lemma NotCaseTag(n: string)
    requires ',' !in n
    ensures Get("unionnotcase=" + n, "unionnotcase") == n
    ensures Get("unionnotcase=" + n, "union") == Get("unionnotcase=" + n, "unioncase") == ""
    ensures Get("unionnotcase=" + n, "optional") == Get("unionnotcase=" + n, "opaque") == ""
  {
    hide Get, Items, FirstValue;
    var t := "unionnotcase=" + n;
    SingleItem(t, "union");
    SingleItem(t, "optional");
    SingleItem(t, "opaque");
    SingleItem(t, "unioncase");
    assert t[..12] == "unionnotcase" && t[13..] == n;
    SingleItem(t, "unionnotcase");
  }

  lemma OptionalTag()
    ensures Get("optional", "optional") == "true"
    ensures Get("optional", "union") == Get("optional", "opaque") == ""
    ensures Get("optional", "unioncase") == Get("optional", "unionnotcase") == ""
  {
    var t := "optional";
    SingleItem(t, "optional");
    SingleItem(t, "union");
    SingleItem(t, "opaque");
    SingleItem(t, "unioncase");
    SingleItem(t, "unionnotcase");
  }

  lemma EmptyTag(opt: string)
    requires opt != ""
    ensures Get("", opt) == ""
  {
    SingleItem("", opt);
  }

  /** strconv.Itoa */
  function Itoa(n: int): (s: string)
    ensures ',' !in s && s != ""
  {
    if n < 0 then "-" + Digits(-n) else Digits(n)
  }

  function Digits(n: nat): (s: string)
    ensures |s| >= 1 && forall c :: c in s ==> '0' <= c <= '9'
  {
    if n < 10 then [Digit(n)] else Digits(n / 10) + [Digit(n % 10)]
  }

  function Digit(d: nat): (c: char)
    requires d < 10
    ensures '0' <= c <= '9'
  {
    ('0' as int + d) as char
  }

  lemma {:induction false} DigitsInjective(a: nat, b: nat)
    requires Digits(a) == Digits(b)
    ensures a == b
  {
    var s, t := Digits(a), Digits(b);
    assert s[|s| - 1] == Digit(a % 10) && t[|t| - 1] == Digit(b % 10);
    if a >= 10 && b >= 10 {
      assert s[..|s| - 1] == Digits(a / 10) && t[..|t| - 1] == Digits(b / 10);
      DigitsInjective(a / 10, b / 10);
    }
  }

  /** The codec compares discriminants as decimal strings; that is the same as comparing the numbers. */
  lemma ItoaInjective(a: int, b: int)
    requires Itoa(a) == Itoa(b)
    ensures a == b
  {
    var s := Itoa(a);
    assert a >= 0 ==> s[0] in Digits(a);
    assert b >= 0 ==> s[0] in Digits(b);
    if a < 0 && b < 0 {
      assert s[1..] == Digits(-a) && s[1..] == Digits(-b);
      DigitsInjective(-a, -b);
    } else if a >= 0 && b >= 0 {
      DigitsInjective(a, b);
    }
  }

  /** The number a string of digits stands for. */
  function ValueOf(s: string): int {
    if s == "" then 0 else ValueOf(s[..|s| - 1]) * 10 + (s[|s| - 1] as int - '0' as int)
  }

  lemma {:induction false} DigitsValue(n: nat)
    ensures ValueOf(Digits(n)) == n && (n > 0 ==> Digits(n)[0] != '0')
  {
    if n >= 10 {
      var head, s := Digits(n / 10), Digits(n);
      DigitsValue(n / 10);
      assert s[..|s| - 1] == head && s[|s| - 1] == Digit(n % 10) && s[0] == head[0];
    } else {
      assert Digits(n)[..0] == "";
    }
  }

  /** Itoa is decimal notation without leading zeros. */
  lemma ItoaIsDecimal(n: int)
    ensures n >= 0 ==> ValueOf(Itoa(n)) == n && (n > 0 ==> Itoa(n)[0] != '0')
    ensures n < 0 ==> Itoa(n)[0] == '-' && ValueOf(Itoa(n)[1..]) == -n && Itoa(n)[1] != '0'
  {
    DigitsValue(if n < 0 then -n else n);
  }
}
