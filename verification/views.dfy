/**
 * The filter terms the driver builds. The engine's `build_view` and
 * `build_chain` are opaque here: `build_view(text)` is the term `Spec(text)`
 * and `build_chain(a, b)` is `Chain(a, b)`, arguments kept in the order the
 * driver passes them.
 */
module Views {
  import opened Wrappers
  import Text

  datatype View = Spec(text: string) | Chain(first: View, second: View)

  /** One `(prefix, nested view text)` pair reported by `View::prefixes`. */
  datatype Prefix = Prefix(path: string, view: string)

  /** What one character of a nested view text becomes inside an `:info=` step. */
  function EscapeChar(c: char): string
  {
    if c == ':' then "<colon>" else if c == ',' then "<comma>" else [c]
  }

  /** Character-by-character escaping, the reference definition of `Escape`. */
  function EscapeEach(v: string): string
    decreases |v|
  {
    if v == [] then [] else EscapeChar(v[0]) + EscapeEach(v[1..])
  }

  /**
   * `v.replace(":", "<colon>").replace(",", "<comma>")`: the escaped text
   * contains neither separator of the `:info=` syntax, and a text that had
   * neither is left as it was.
   */
  function Escape(v: string): (r: string)
    ensures ':' !in r && ',' !in r
    ensures ':' !in v && ',' !in v ==> r == v
  {
    var colons := Text.ReplaceChar(v, ':', "<colon>");
    Text.ReplaceCharNoNewChar(colons, ',', "<comma>", ':');
    Text.ReplaceChar(colons, ',', "<comma>")
  }

  /** The two successive replacements agree with the one-pass, per-character escape. */
  lemma {:induction false} EscapeIsPerCharacter(v: string)
    ensures Escape(v) == EscapeEach(v)
    decreases |v|
  {
    if v != [] {
      var head := Text.ReplaceChar([v[0]], ':', "<colon>");
      assert v == [v[0]] + v[1..];
      Text.ReplaceCharAppend([v[0]], v[1..], ':', "<colon>");
      Text.ReplaceCharAppend(head, Text.ReplaceChar(v[1..], ':', "<colon>"), ',', "<comma>");
      assert Text.ReplaceChar(head, ',', "<comma>") == EscapeChar(v[0]) by {
        assert [v[0]][1..] == [];
        if v[0] == ':' {
          assert head == "<colon>";
        } else {
          assert head == [v[0]];
          assert [v[0]][1..] == [];
        }
      }
      EscapeIsPerCharacter(v[1..]);
    }
  }

  /** The text of the `:info=` step for one prefix; `src` is the unresolved source name. */
  function InfoText(p: Prefix, src: string): string
  {
    ":info=" + p.path + ",commit=#sha1,tree=#tree,src=" + src + ",view=" + Escape(p.view)
  }

  /** The step of the `:info=` layer for one prefix. */
  function InfoStep(p: Prefix, src: string): View
  {
    Spec(InfoText(p, src))
  }

  /** The info steps for `pres`, in order. */
  function InfoSteps(pres: seq<Prefix>, src: string): (steps: seq<View>)
    ensures |steps| == |pres|
    decreases |pres|
  {
    if pres == [] then [] else InfoSteps(pres[..|pres| - 1], src) + [InfoStep(pres[|pres| - 1], src)]
  }

  /** The `i`-th info step is the one for the `i`-th prefix. */
  lemma {:induction false} InfoStepsAt(pres: seq<Prefix>, src: string, i: nat)
    requires i < |pres|
    ensures InfoSteps(pres, src)[i] == InfoStep(pres[i], src)
    decreases |pres|
  {
    var init := pres[..|pres| - 1];
    assert InfoSteps(pres, src) == InfoSteps(init, src) + [InfoStep(pres[|pres| - 1], src)];
    if i < |init| {
      InfoStepsAt(init, src, i);
      assert init[i] == pres[i];
    }
  }

  /** `v` after the `--infofile` loop has chained one info step per prefix of `pres`. */
  function WithInfo(v: View, pres: seq<Prefix>, src: string): View
    decreases |pres|
  {
    if pres == [] then v
    else Chain(WithInfo(v, pres[..|pres| - 1], src), InfoStep(pres[|pres| - 1], src))
  }

  /** The `:cutoff=` step `--squash` puts in front; it names the unresolved source. */
  function CutoffStep(src: string): View
  {
    Spec(":cutoff=" + src)
  }

  /**
   * Peels `n` layers off the first-argument spine of `v`: the innermost term
   * and the second arguments met on the way, innermost first.
   */
  function Unchain(v: View, n: nat): Option<(View, seq<View>)>
    decreases n
  {
    if n == 0 then Some((v, []))
    else match v
      case Spec(_) => None
      case Chain(first, second) =>
        match Unchain(first, n - 1)
        case None => None
        case Some(peeled) => Some((peeled.0, peeled.1 + [second]))
  }

  /**
   * The info loop adds exactly one layer per prefix, in prefix order, around
   * the untouched base view.
   */
  lemma {:induction false} InfoLayers(v: View, pres: seq<Prefix>, src: string)
    ensures Unchain(WithInfo(v, pres, src), |pres|) == Some((v, InfoSteps(pres, src)))
    decreases |pres|
  {
    if pres != [] {
      var init := pres[..|pres| - 1];
      InfoLayers(v, init, src);
    }
  }

  /**
   * The view of one entry: `build_view(viewText)`, then one info layer per
   * prefix with `--infofile`, then the cutoff step with `--squash`.
   */
  function Compose(viewText: string, src: string, pres: seq<Prefix>, infofile: bool, squash: bool): View
  {
    var v := if infofile then WithInfo(Spec(viewText), pres, src) else Spec(viewText);
    if squash then Chain(CutoffStep(src), v) else v
  }

  /**
   * The shape of the composed view: with `--squash` the outermost term is
   * the cutoff step for the unresolved `src`; below it are exactly one info
   * layer per prefix with `--infofile` and none without; at the bottom is
   * the view built from the entry's own text.
   */
  lemma ComposeShape(viewText: string, src: string, pres: seq<Prefix>, infofile: bool, squash: bool)
    ensures var v := Compose(viewText, src, pres, infofile, squash);
      var layered := if squash then v.second else v;
      && (squash ==> v == Chain(CutoffStep(src), layered))
      && Unchain(layered, if infofile then |pres| else 0)
         == Some((Spec(viewText), if infofile then InfoSteps(pres, src) else []))
  {
    if infofile {
      InfoLayers(Spec(viewText), pres, src);
    }
  }
}
