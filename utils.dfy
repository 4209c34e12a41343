/** The pure tree-and-style functions of the editor (lib/utils.ts): the style
    resolver, the forest locator and the forest style mutator. */
module Utils {
  import opened Types

  // ---------------------------------------------------------------------------
  // Style resolver (getComponentStyle)
  // ---------------------------------------------------------------------------

  /** The fields the resolver copies verbatim, present or not. */
  predicate PassThrough(f: Field) {
    match f
    case Color | BackgroundColor
      | FontSize | FontWeight | FontFamily | FontStyle | LineHeight | LetterSpacing | TextAlign
      | Display | FlexDirection | JustifyContent | AlignItems | Gap
      | Width | Height | MinWidth | MaxWidth | MinHeight | MaxHeight
      | BorderRadius | BoxShadow | Filter => true
    case _ => false
  }

  /** The keys of the presentation map (`React.CSSProperties`) the resolver
      can produce: a copied field under its own name, or a computed one. */
  datatype CssKey =
    | Copied(field: Field)
    | PaddingKey | MarginKey | BorderKey | OpacityKey | CursorKey | TransitionKey

  type Css = map<CssKey, string>

  const DefaultBorderWidth := "1px"
  const DefaultBorderColor := "#000000"
  const DefaultSide := "0"
  const Pointer := "pointer"
  const ShortTransition := "all 0.2s ease"

  /** `styles.f || default`: the field when it is set, the default otherwise. */
  function OrDefault(s: Styles, f: Field, default: string): (r: string)
    ensures IsSet(s, f) ==> r == s[f]
    ensures !IsSet(s, f) ==> r == default
  {
    if IsSet(s, f) then s[f] else default
  }

  /** A spacing shorthand: the combined field when it is set, otherwise
      "top right bottom left" with each missing side as "0". */
  function Shorthand(s: Styles, all: Field, top: Field, right: Field, bottom: Field, left: Field): (r: string)
  {
    if IsSet(s, all) then s[all]
    else OrDefault(s, top, DefaultSide) + " " + OrDefault(s, right, DefaultSide) + " "
         + OrDefault(s, bottom, DefaultSide) + " " + OrDefault(s, left, DefaultSide)
  }

  /** The composed border, `None` standing for `undefined`. */
  function Border(s: Styles): (r: Option<string>) {
    if IsSet(s, BorderStyle) && s[BorderStyle] != "none" then
      Some(OrDefault(s, BorderWidth, DefaultBorderWidth) + " " + s[BorderStyle] + " "
           + OrDefault(s, BorderColor, DefaultBorderColor))
    else if BorderStyle in s && s[BorderStyle] == "none" then
      Some("none")
    else
      None
  }

  /** `getComponentStyle`: the presentation map of a style record, holding
      exactly the keys whose value is defined. */
  function GetComponentStyle(s: Styles): (r: Css)
    ensures forall k :: k in r <==> Resolve(s, k).Some?
    ensures forall k :: k in r ==> Some(r[k]) == Resolve(s, k)
  {
    var keys := (set f | f in s :: Copied(f)) + {PaddingKey, MarginKey, BorderKey, OpacityKey, CursorKey, TransitionKey};
    map k | k in keys && Resolve(s, k).Some? :: Resolve(s, k).value
  }

  /** The value of one presentation key, `None` standing for `undefined`. */
  function Resolve(s: Styles, k: CssKey): (r: Option<string>) {
    match k
    case Copied(f) => if PassThrough(f) && f in s then Some(s[f]) else None
    case PaddingKey => Some(Shorthand(s, Padding, PaddingTop, PaddingRight, PaddingBottom, PaddingLeft))
    case MarginKey => Some(Shorthand(s, Margin, MarginTop, MarginRight, MarginBottom, MarginLeft))
    case BorderKey => Border(s)
    case OpacityKey => if IsSet(s, Opacity) then Some(s[Opacity]) else None
    case CursorKey => Some(Pointer)
    case TransitionKey => Some(ShortTransition)
  }

  /** The two editor hints are always present with their fixed values. */
  lemma FixedHints(s: Styles)
    ensures var r := GetComponentStyle(s);
      CursorKey in r && r[CursorKey] == "pointer" && TransitionKey in r && r[TransitionKey] == "all 0.2s ease"
  {
    var r := GetComponentStyle(s);
    assert Resolve(s, CursorKey).Some? && Resolve(s, TransitionKey).Some?;
  }

  /** Every listed field is copied unchanged, present exactly when it is
      present in the record (even when empty); no other field is copied. */
  lemma PassThroughFields(s: Styles)
    ensures var r := GetComponentStyle(s);
      forall f :: (Copied(f) in r <==> PassThrough(f) && f in s)
             && (Copied(f) in r ==> r[Copied(f)] == s[f])
  {
    var r := GetComponentStyle(s);
    forall f ensures (Copied(f) in r <==> PassThrough(f) && f in s) && (Copied(f) in r ==> r[Copied(f)] == s[f]) {
      assert Resolve(s, Copied(f)).Some? <==> PassThrough(f) && f in s;
    }
  }

  /** Padding is always defined: `padding` verbatim when it is set, otherwise
      "T R B L" with each missing or empty side as "0". */
  lemma PaddingRule(s: Styles)
    ensures var r := GetComponentStyle(s);
      && PaddingKey in r
      && (IsSet(s, Padding) ==> r[PaddingKey] == s[Padding])
      && (!IsSet(s, Padding) ==>
            r[PaddingKey] == OrDefault(s, PaddingTop, "0") + " " + OrDefault(s, PaddingRight, "0") + " "
                             + OrDefault(s, PaddingBottom, "0") + " " + OrDefault(s, PaddingLeft, "0"))
  {
    assert Resolve(s, PaddingKey).Some?;
  }

  /** Margin follows the same rule as padding, independently of it. */
  lemma MarginRule(s: Styles)
    ensures var r := GetComponentStyle(s);
      && MarginKey in r
      && (IsSet(s, Margin) ==> r[MarginKey] == s[Margin])
      && (!IsSet(s, Margin) ==>
            r[MarginKey] == OrDefault(s, MarginTop, "0") + " " + OrDefault(s, MarginRight, "0") + " "
                            + OrDefault(s, MarginBottom, "0") + " " + OrDefault(s, MarginLeft, "0"))
  {
    assert Resolve(s, MarginKey).Some?;
  }

  /** The border is defined exactly when `borderStyle` is set; "none" passes
      through, any other style is "width style color" with defaults "1px" and
      "#000000". */
  lemma BorderRule(s: Styles)
    ensures var r := GetComponentStyle(s);
      && (BorderKey in r <==> IsSet(s, BorderStyle))
      && (IsSet(s, BorderStyle) && s[BorderStyle] == "none" ==> r[BorderKey] == "none")
      && (IsSet(s, BorderStyle) && s[BorderStyle] != "none" ==>
            r[BorderKey] == OrDefault(s, BorderWidth, "1px") + " " + s[BorderStyle] + " "
                            + OrDefault(s, BorderColor, "#000000"))
  {
    assert Resolve(s, BorderKey) == Border(s);
  }

  /** Opacity is defined exactly when `opacity` is set, from that value. */
  lemma OpacityRule(s: Styles)
    ensures var r := GetComponentStyle(s);
      (OpacityKey in r <==> IsSet(s, Opacity)) && (OpacityKey in r ==> r[OpacityKey] == s[Opacity])
  {
    assert Resolve(s, OpacityKey).Some? <==> IsSet(s, Opacity);
  }

  /** Dropping `textColor` changes no presentation key. */
  lemma ResolveWithoutTextColor(s: Styles, k: CssKey)
    ensures Resolve(s, k) == Resolve(s - {TextColor}, k)
  {
    var u := s - {TextColor};
    match k
    case Copied(f) =>
      if f == TextColor {
        assert !PassThrough(f);
      } else {
        assert f in s <==> f in u;
      }
    case PaddingKey =>
      assert IsSet(s, Padding) == IsSet(u, Padding);
    case MarginKey =>
      assert IsSet(s, Margin) == IsSet(u, Margin);
    case BorderKey =>
      assert BorderStyle in s <==> BorderStyle in u;
    case OpacityKey =>
    case CursorKey =>
    case TransitionKey =>
  }

  /** `textColor` is declared but never read: two records that differ only
      there resolve alike. */
  lemma ResolverIgnoresTextColor(s: Styles, t: Styles)
    requires s - {TextColor} == t - {TextColor}
    ensures GetComponentStyle(s) == GetComponentStyle(t)
  {
    forall k ensures Resolve(s, k) == Resolve(t, k) {
      ResolveWithoutTextColor(s, k);
      ResolveWithoutTextColor(t, k);
    }
    var r, q := GetComponentStyle(s), GetComponentStyle(t);
    assert r.Keys == q.Keys;
    forall k | k in r ensures r[k] == q[k] {
      assert Some(r[k]) == Resolve(s, k) == Resolve(t, k) == Some(q[k]);
    }
  }

  /** An empty record still gets zero padding and margin and the two fixed
      hints, and nothing else. */
  lemma EmptyStyle()
    ensures GetComponentStyle(map[]) ==
      map[PaddingKey := "0 0 0 0", MarginKey := "0 0 0 0", CursorKey := Pointer, TransitionKey := ShortTransition]
  {
    var e: Styles := map[];
    var r := GetComponentStyle(e);
    var expected := map[PaddingKey := "0 0 0 0", MarginKey := "0 0 0 0", CursorKey := Pointer, TransitionKey := ShortTransition];
    PaddingRule(e);
    MarginRule(e);
    FixedHints(e);
    PassThroughFields(e);
    BorderRule(e);
    OpacityRule(e);
    forall k | k in r ensures k in expected && r[k] == expected[k] { }
    assert r.Keys == expected.Keys;
  }

  /** A set `padding` wins over its sides. */
  lemma PaddingSetWins()
    ensures GetComponentStyle(map[Padding := "10px", PaddingTop := "3px"])[PaddingKey] == "10px"
  {
    PaddingRule(map[Padding := "10px", PaddingTop := "3px"]);
  }

  /** Missing sides render as "0". */
  lemma PaddingMissingSides()
    ensures GetComponentStyle(map[PaddingTop := "4px", PaddingLeft := "8px"])[PaddingKey] == "4px 0 0 8px"
  {
    PaddingRule(map[PaddingTop := "4px", PaddingLeft := "8px"]);
  }

  /** An empty `padding` is not set, and an empty side renders as "0". */
  lemma PaddingEmptyIsUnset()
    ensures GetComponentStyle(map[Padding := "", PaddingTop := "4px", PaddingRight := ""])[PaddingKey] == "4px 0 0 0"
  {
    PaddingRule(map[Padding := "", PaddingTop := "4px", PaddingRight := ""]);
  }

  /** A missing width defaults to "1px". */
  lemma BorderDefaultWidth()
    ensures GetComponentStyle(map[BorderStyle := "solid", BorderColor := "#ff0000"])[BorderKey]
      == "1px solid #ff0000"
  {
    BorderRule(map[BorderStyle := "solid", BorderColor := "#ff0000"]);
  }

  /** An empty width and a missing color default to "1px" and "#000000". */
  lemma BorderDefaultColor()
    ensures GetComponentStyle(map[BorderStyle := "dashed", BorderWidth := ""])[BorderKey]
      == "1px dashed #000000"
  {
    BorderRule(map[BorderStyle := "dashed", BorderWidth := ""]);
  }

  /** The "none" sentinel ignores the width. */
  lemma BorderNone()
    ensures GetComponentStyle(map[BorderStyle := "none", BorderWidth := "2px"])[BorderKey] == "none"
  {
    BorderRule(map[BorderStyle := "none", BorderWidth := "2px"]);
  }

  /** An empty `borderStyle` leaves the border undefined whatever the width. */
  lemma BorderEmptyStyleIsUnset()
    ensures BorderKey !in GetComponentStyle(map[BorderStyle := "", BorderWidth := "2px"])
  {
    BorderRule(map[BorderStyle := "", BorderWidth := "2px"]);
  }

  // ---------------------------------------------------------------------------
  // Reading a shorthand back: splitting at spaces, as `String.prototype.split(' ')`
  // ---------------------------------------------------------------------------

  /** The pieces of `s` between single spaces (there is always at least one). */
  function Split(s: string): (r: seq<string>)
    ensures |r| >= 1
  {
    if s == [] then [""]
    else if s[0] == ' ' then [""] + Split(s[1..])
    else var t := Split(s[1..]); [[s[0]] + t[0]] + t[1..]
  }

  /** A word without spaces splits into itself alone. */
  lemma {:induction false} SplitWord(a: string)
    requires ' ' !in a
    ensures Split(a) == [a]
  {
    if a != [] {
      assert a[0] in a;
      assert forall c :: c in a[1..] ==> c in a;
      SplitWord(a[1..]);
      assert [a[0]] + a[1..] == a;
    }
  }

  /** Splitting a space-free word, a space and a rest gives the word, then the rest's split. */
  lemma {:induction false} SplitAfterWord(a: string, b: string)
    requires ' ' !in a
    ensures Split(a + " " + b) == [a] + Split(b)
  {
    if a == [] {
      assert a + " " + b == [' '] + b;
    } else {
      var s := a + " " + b;
      assert s[0] == a[0] && a[0] in a;
      assert s[1..] == a[1..] + " " + b;
      assert forall c :: c in a[1..] ==> c in a;
      SplitAfterWord(a[1..], b);
      assert [a[0]] + a[1..] == a;
    }
  }

  /** A composed shorthand of space-free words splits back into those words. */
  lemma SplitFour(a: string, b: string, c: string, d: string)
    requires ' ' !in a && ' ' !in b && ' ' !in c && ' ' !in d
    ensures Split(a + " " + b + " " + c + " " + d) == [a, b, c, d]
  {
    assert a + " " + b + " " + c + " " + d == a + " " + (b + " " + (c + " " + d));
    SplitAfterWord(a, b + " " + (c + " " + d));
    SplitAfterWord(b, c + " " + d);
    SplitAfterWord(c, d);
    SplitWord(d);
  }

  /** The field holds no space, or is absent. */
  predicate NoSpace(s: Styles, f: Field) {
    f in s ==> ' ' !in s[f]
  }

  /** When `padding` is unset and no side holds a space, the resolved padding
      reads back as the four sides in order, each defaulted to "0". */
  lemma PaddingReadsBackAsSides(s: Styles)
    requires !IsSet(s, Padding)
    requires NoSpace(s, PaddingTop) && NoSpace(s, PaddingRight) && NoSpace(s, PaddingBottom) && NoSpace(s, PaddingLeft)
    ensures Split(GetComponentStyle(s)[PaddingKey]) ==
      [OrDefault(s, PaddingTop, "0"), OrDefault(s, PaddingRight, "0"),
       OrDefault(s, PaddingBottom, "0"), OrDefault(s, PaddingLeft, "0")]
  {
    SplitFour(OrDefault(s, PaddingTop, "0"), OrDefault(s, PaddingRight, "0"),
              OrDefault(s, PaddingBottom, "0"), OrDefault(s, PaddingLeft, "0"));
  }

  /** When `borderStyle` is set to a style other than "none" and none of the
      three fields holds a space, the border reads back as width, style, color. */
  lemma BorderReadsBackAsParts(s: Styles)
    requires IsSet(s, BorderStyle) && s[BorderStyle] != "none"
    requires NoSpace(s, BorderWidth) && NoSpace(s, BorderStyle) && NoSpace(s, BorderColor)
    ensures Split(GetComponentStyle(s)[BorderKey]) ==
      [OrDefault(s, BorderWidth, "1px"), s[BorderStyle], OrDefault(s, BorderColor, "#000000")]
  {
    var w, st, c := OrDefault(s, BorderWidth, "1px"), s[BorderStyle], OrDefault(s, BorderColor, "#000000");
    assert w + " " + st + " " + c == w + " " + (st + " " + c);
    SplitAfterWord(w, st + " " + c);
    SplitAfterWord(st, c);
    SplitWord(c);
  }

  // ---------------------------------------------------------------------------
  // The forest: pre-order listing and identifiers (reference definitions)
  // ---------------------------------------------------------------------------

  /** The nodes of a forest in pre-order: each node, then its descendants,
      then its following siblings. */
  function PreOrder(f: seq<Node>): (r: seq<Node>)
  {
    if f == [] then []
    else
      [f[0]]
      + (match f[0].children case Absent => [] case Present(c) => PreOrder(c))
      + PreOrder(f[1..])
  }

  /** Every identifier in the forest, at any depth. */
  function Ids(f: seq<Node>): (r: set<string>) {
    set n | n in PreOrder(f) :: n.id
  }

  /** The position of the first node in `p` with identifier `id`. */
  function IndexOfId(p: seq<Node>, id: string): (r: Option<nat>)
    ensures r.None? <==> forall i :: 0 <= i < |p| ==> p[i].id != id
    ensures r.Some? ==> r.value < |p| && p[r.value].id == id
    ensures r.Some? ==> forall j :: 0 <= j < r.value ==> p[j].id != id
  {
    if p == [] then None
    else if p[0].id == id then Some(0)
    else match IndexOfId(p[1..], id) case None => None case Some(i) => Some(i + 1)
  }

  // ---------------------------------------------------------------------------
  // Locator (findComponentById)
  // ---------------------------------------------------------------------------

  /** `findComponentById`: depth-first search over the forest, a node before
      its children and its children before its next sibling. */
  function FindComponentById(f: seq<Node>, id: string): (r: Option<Node>)
    ensures r.None? <==> id !in Ids(f)
    ensures r.Some? ==> r.value.id == id && r.value in PreOrder(f)
  {
    if f == [] then None
    else if f[0].id == id then Some(f[0])
    else
      match (match f[0].children case Absent => None case Present(c) => FindComponentById(c, id))
      case Some(found) => Some(found)
      case None => FindComponentById(f[1..], id)
  }

  /** The first node of `p` with identifier `id`, if any. */
  function FirstWithId(p: seq<Node>, id: string): (r: Option<Node>) {
    if p == [] then None
    else if p[0].id == id then Some(p[0])
    else FirstWithId(p[1..], id)
  }

  /** `FirstWithId` picks the node at the first matching index. */
  lemma {:induction false} FirstWithIdAtIndex(p: seq<Node>, id: string)
    ensures FirstWithId(p, id) == match IndexOfId(p, id) case None => None case Some(i) => Some(p[i])
  {
    if p != [] && p[0].id != id {
      FirstWithIdAtIndex(p[1..], id);
    }
  }

  /** The first match in a concatenation comes from the first part if it has one. */
  lemma {:induction false} FirstWithIdConcat(a: seq<Node>, b: seq<Node>, id: string)
    ensures FirstWithId(a + b, id) ==
      if FirstWithId(a, id).Some? then FirstWithId(a, id) else FirstWithId(b, id)
  {
    if a != [] {
      assert (a + b)[0] == a[0];
      assert (a + b)[1..] == a[1..] + b;
      FirstWithIdConcat(a[1..], b, id);
    } else {
      assert a + b == b;
    }
  }

  /** The node found is the first node with that identifier in pre-order;
      duplicates later in pre-order are never returned. */
  lemma {:induction false} FindIsFirstInPreOrder(f: seq<Node>, id: string)
    ensures FindComponentById(f, id) == FirstWithId(PreOrder(f), id)
  {
    if f != [] {
      var n := f[0];
      var below := match n.children case Absent => [] case Present(c) => PreOrder(c);
      var rest := PreOrder(f[1..]);
      assert PreOrder(f) == [n] + (below + rest);
      FirstWithIdConcat([n], below + rest, id);
      FirstWithIdConcat(below, rest, id);
      assert FirstWithId([n], id) == if n.id == id then Some(n) else None;
      FindIsFirstInPreOrder(f[1..], id);
      if n.children.Present? {
        FindIsFirstInPreOrder(n.children.nodes, id);
      }
    }
  }

  /** The node found sits at the least pre-order position holding the
      identifier: no earlier node in pre-order has it. */
  lemma FindIsAtFirstIndex(f: seq<Node>, id: string)
    ensures FindComponentById(f, id) ==
      match IndexOfId(PreOrder(f), id) case None => None case Some(i) => Some(PreOrder(f)[i])
  {
    FindIsFirstInPreOrder(f, id);
    FirstWithIdAtIndex(PreOrder(f), id);
  }

  // ---------------------------------------------------------------------------
  // Mutator (updateComponentStyle)
  // ---------------------------------------------------------------------------

  /** `{...old, ...upd}`: the update's keys win, no key is removed. */
  function MergeStyles(prev: Styles, upd: Styles): (r: Styles)
    ensures r.Keys == prev.Keys + upd.Keys
    ensures forall k :: k in upd ==> r[k] == upd[k]
    ensures forall k :: k in prev && k !in upd ==> r[k] == prev[k]
  {
    prev + upd
  }

  /** `updateComponentStyle`: every node with the identifier gets the merged
      styles and keeps its children as they were; every other node keeps its
      styles and has the update applied below it. */
  function UpdateComponentStyle(f: seq<Node>, id: string, upd: Styles): (r: seq<Node>)
    ensures |r| == |f|
    ensures forall i :: 0 <= i < |f| && f[i].id == id ==>
      r[i] == f[i].(styles := MergeStyles(f[i].styles, upd))
    ensures forall i :: 0 <= i < |f| && f[i].id != id ==>
      r[i] == match f[i].children
              case Absent => f[i]
              case Present(c) => f[i].(children := Present(UpdateComponentStyle(c, id, upd)))
  {
    if f == [] then []
    else
      var n := f[0];
      var n' :=
        if n.id == id then n.(styles := MergeStyles(n.styles, upd))
        else match n.children
          case Absent => n
          case Present(c) => n.(children := Present(UpdateComponentStyle(c, id, upd)));
      [n'] + UpdateComponentStyle(f[1..], id, upd)
  }

  /** `b` is `a` after the update, seen node by node: same identifier; a
      node without the identifier keeps its styles; a node with it keeps its
      styles (below a matching ancestor) or gets the merged ones. */
  predicate RestyledAt(a: Node, b: Node, id: string, upd: Styles) {
    && b.id == a.id
    && (a.id != id ==> b.styles == a.styles)
    && (a.id == id ==> b.styles == a.styles || b.styles == MergeStyles(a.styles, upd))
  }

  /** Two pre-order listings of equal length related position by position. */
  predicate OnlyMatchesRestyled(p: seq<Node>, q: seq<Node>, id: string, upd: Styles) {
    |p| == |q| && forall i :: 0 <= i < |p| ==> RestyledAt(p[i], q[i], id, upd)
  }

  /** Position-wise restyling is preserved by concatenation. */
  lemma OnlyMatchesRestyledConcat(p1: seq<Node>, q1: seq<Node>, p2: seq<Node>, q2: seq<Node>, id: string, upd: Styles)
    requires OnlyMatchesRestyled(p1, q1, id, upd) && OnlyMatchesRestyled(p2, q2, id, upd)
    ensures OnlyMatchesRestyled(p1 + p2, q1 + q2, id, upd)
  {
    forall i | 0 <= i < |p1 + p2| ensures RestyledAt((p1 + p2)[i], (q1 + q2)[i], id, upd) {
      if i < |p1| {
        assert (p1 + p2)[i] == p1[i] && (q1 + q2)[i] == q1[i];
      } else {
        assert (p1 + p2)[i] == p2[i - |p1|] && (q1 + q2)[i] == q2[i - |p1|];
      }
    }
  }

  /** At every depth, in pre-order, the update keeps the number of nodes and
      each node's identifier; every node without the identifier keeps its
      styles, and a node with it keeps or merges them. */
  lemma {:induction false} UpdateRestylesOnlyMatches(f: seq<Node>, id: string, upd: Styles)
    ensures OnlyMatchesRestyled(PreOrder(f), PreOrder(UpdateComponentStyle(f, id, upd)), id, upd)
  {
    if f != [] {
      var r := UpdateComponentStyle(f, id, upd);
      var n, m := f[0], r[0];
      assert r[1..] == UpdateComponentStyle(f[1..], id, upd);
      UpdateRestylesOnlyMatches(f[1..], id, upd);
      var below := match n.children case Absent => [] case Present(c) => PreOrder(c);
      var below' := match m.children case Absent => [] case Present(c) => PreOrder(c);
      if n.id == id {
        assert below' == below;
        forall i | 0 <= i < |below| ensures RestyledAt(below[i], below'[i], id, upd) {
          assert below[i] == below'[i];
        }
      } else if n.children.Present? {
        UpdateRestylesOnlyMatches(n.children.nodes, id, upd);
      }
      assert OnlyMatchesRestyled(below, below', id, upd);
      assert OnlyMatchesRestyled([n], [m], id, upd);
      OnlyMatchesRestyledConcat([n], [m], below, below', id, upd);
      OnlyMatchesRestyledConcat([n] + below, [m] + below', PreOrder(f[1..]), PreOrder(r[1..]), id, upd);
      assert PreOrder(f) == [n] + below + PreOrder(f[1..]);
      assert PreOrder(r) == [m] + below' + PreOrder(r[1..]);
    }
  }

  /** The forest `[p]` with children `x` and a leaf `y`, updating `x`: the
      sibling `y` keeps its styles and `x` gets the merged ones. */
  lemma DeepSiblingKeepsStyles(p: Node, x: Node, y: Node, upd: Styles)
    requires p.id != x.id && y.id != x.id
    requires p.children == Present([x, y]) && y.children.Absent?
    ensures UpdateComponentStyle([p], x.id, upd)
      == [p.(children := Present([x.(styles := MergeStyles(x.styles, upd)), y]))]
  {
    assert UpdateComponentStyle([p], x.id, upd)[0] == p.(children := Present(UpdateComponentStyle([x, y], x.id, upd)));
    var u := UpdateComponentStyle([x, y], x.id, upd);
    assert u[0] == x.(styles := MergeStyles(x.styles, upd));
    assert u[1] == y;
    assert u == [x.(styles := MergeStyles(x.styles, upd)), y];
  }

  /** A forest with all styles erased: what the mutator must not change. */
  function Skeleton(f: seq<Node>): (r: seq<Node>)
  {
    if f == [] then []
    else
      var n := f[0];
      var c := match n.children case Absent => Absent case Present(c) => Present(Skeleton(c));
      [n.(styles := map[], children := c)] + Skeleton(f[1..])
  }

  /** The mutator keeps every level's length and order and every node's
      identifier, type, label and content. */
  lemma {:induction false} UpdatePreservesSkeleton(f: seq<Node>, id: string, upd: Styles)
    ensures Skeleton(UpdateComponentStyle(f, id, upd)) == Skeleton(f)
  {
    if f != [] {
      var r := UpdateComponentStyle(f, id, upd);
      assert r[1..] == UpdateComponentStyle(f[1..], id, upd);
      UpdatePreservesSkeleton(f[1..], id, upd);
      if f[0].id != id && f[0].children.Present? {
        UpdatePreservesSkeleton(f[0].children.nodes, id, upd);
      }
    }
  }

  /** An identifier that occurs nowhere leaves the forest equal by value. */
  lemma {:induction false} UpdateMissingIdIsIdentity(f: seq<Node>, id: string, upd: Styles)
    requires id !in Ids(f)
    ensures UpdateComponentStyle(f, id, upd) == f
  {
    if f != [] {
      assert PreOrder(f) == [f[0]] + (match f[0].children case Absent => [] case Present(c) => PreOrder(c)) + PreOrder(f[1..]);
      assert f[0] in PreOrder(f);
      assert id !in Ids(f[1..]) by {
        forall n | n in PreOrder(f[1..]) ensures n.id != id { assert n in PreOrder(f); }
      }
      UpdateMissingIdIsIdentity(f[1..], id, upd);
      if f[0].children.Present? {
        var c := f[0].children.nodes;
        assert id !in Ids(c) by {
          forall n | n in PreOrder(c) ensures n.id != id { assert n in PreOrder(f); }
        }
        UpdateMissingIdIsIdentity(c, id, upd);
      }
      assert [f[0]] + f[1..] == f;
    }
  }

  /** Applying the same update a second time changes nothing. */
  lemma {:induction false} UpdateIdempotent(f: seq<Node>, id: string, upd: Styles)
    ensures UpdateComponentStyle(UpdateComponentStyle(f, id, upd), id, upd) == UpdateComponentStyle(f, id, upd)
  {
    if f != [] {
      var r := UpdateComponentStyle(f, id, upd);
      assert r[1..] == UpdateComponentStyle(f[1..], id, upd);
      UpdateIdempotent(f[1..], id, upd);
      if f[0].id == id {
        assert MergeStyles(MergeStyles(f[0].styles, upd), upd) == MergeStyles(f[0].styles, upd);
      } else if f[0].children.Present? {
        UpdateIdempotent(f[0].children.nodes, id, upd);
      }
      assert r == [r[0]] + r[1..];
    }
  }

  /** Looking the identifier up after the update finds the node found before,
      now carrying the merged styles. */
  lemma {:induction false} FindAfterUpdate(f: seq<Node>, id: string, upd: Styles)
    ensures FindComponentById(UpdateComponentStyle(f, id, upd), id) ==
      match FindComponentById(f, id)
      case None => None
      case Some(n) => Some(n.(styles := MergeStyles(n.styles, upd)))
  {
    if f != [] {
      var r := UpdateComponentStyle(f, id, upd);
      assert r[1..] == UpdateComponentStyle(f[1..], id, upd);
      FindAfterUpdate(f[1..], id, upd);
      if f[0].id != id && f[0].children.Present? {
        FindAfterUpdate(f[0].children.nodes, id, upd);
      }
    }
  }

  /** An empty update leaves the forest equal by value. */
  lemma {:induction false} EmptyUpdateIsIdentity(f: seq<Node>, id: string)
    ensures UpdateComponentStyle(f, id, map[]) == f
  {
    if f != [] {
      EmptyUpdateIsIdentity(f[1..], id);
      if f[0].children.Present? {
        EmptyUpdateIsIdentity(f[0].children.nodes, id);
      }
      assert MergeStyles(f[0].styles, map[]) == f[0].styles;
      assert [f[0]] + f[1..] == f;
    }
  }

  /** A matching node is not searched: a descendant carrying the same
      identifier keeps its old styles. */
  lemma NestedMatchIsNotUpdated(child: Node, parent: Node, upd: Styles)
    requires parent.id == child.id
    requires parent.children == Present([child])
    requires MergeStyles(child.styles, upd) != child.styles
    ensures var r := UpdateComponentStyle([parent], parent.id, upd);
      r[0].children == Present([child])
      && FindComponentById(r, child.id) == Some(parent.(styles := MergeStyles(parent.styles, upd)))
  {
  }

  // ---------------------------------------------------------------------------
  // JSON helpers
  // ---------------------------------------------------------------------------

  const InvalidJsonFormat := "Invalid JSON format"

  /** `importFromJSON`, over a parser given as a parameter (`None` stands for
      a parse error): a parse error becomes the fixed failure message. */
  function ImportFromJSON(parse: string -> Option<Screen>, json: string): (r: Result<Screen, string>)
    ensures r.Err? <==> parse(json).None?
    ensures r.Err? ==> r.error == InvalidJsonFormat
    ensures r.Ok? ==> Some(r.value) == parse(json)
  {
    match parse(json)
    case None => Err(InvalidJsonFormat)
    case Some(s) => Ok(s)
  }
}
