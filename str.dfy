/**
 * The filter chain of the library (src/Str.php): an object that collects filters
 * and applies them in order. A filter is either one of the named primitives of
 * `StrFilter` or a callable of the caller's.
 */
module StrBuilder {
  import opened Wrappers
  import opened Unicode
  import opened Utf8
  import StrFilter

  /** The primitives a builder method appends, one per method of the filter class. */
  datatype Prim =
    | Normalize
    | NormalizeNewlines
    | NoControlCharacters
    | NoTabs
    | NoNewlines
    | NoWritingDirections
    | Trim
    | Upper
    | Lower
    | Hankaku
    | HankakuAlpha
    | HankakuDigits
    | NoHankakuKana
    | Hiragana
    | Katakana

  /** One entry of the filter list: a named primitive or a user callable. */
  datatype Stage = Named(prim: Prim) | Custom(call: Bytes -> Bytes)

  /** A primitive other than normalize, on decoded text. */
  function ApplyText(u: UnicodeData, p: Prim, t: Text): (r: Text)
    requires p != Prim.Normalize
  {
    match p
    case NormalizeNewlines => StrFilter.NormalizeNewlines(t)
    case NoControlCharacters => StrFilter.NoControlCharacters(u, t)
    case NoTabs => StrFilter.NoTabs(t)
    case NoNewlines => StrFilter.NoNewlines(t)
    case NoWritingDirections => StrFilter.NoWritingDirections(t)
    case Trim => StrFilter.Trim(u, t)
    case Upper => StrFilter.Upper(u, t)
    case Lower => StrFilter.Lower(u, t)
    case Hankaku => StrFilter.Hankaku(u, t)
    case HankakuAlpha => StrFilter.HankakuAlpha(u, t)
    case HankakuDigits => StrFilter.HankakuDigits(u, t)
    case NoHankakuKana => StrFilter.NoHankakuKana(u, t)
    case Hiragana => StrFilter.Hiragana(u, t)
    case Katakana => StrFilter.Katakana(u, t)
  }

  /**
   * `call_user_func($filter, $str)` for one filter. `None` is the call raising:
   * a primitive other than normalize given malformed UTF-8.
   */
  function ApplyStage(u: UnicodeData, st: Stage, s: Bytes): (r: Option<Bytes>)
    ensures st.Named? && r.Some? ==> WellFormed(r.value)
    ensures st.Named? && st.prim == Prim.Normalize ==> r.Some?
    ensures st.Named? && st.prim != Prim.Normalize ==> (r.Some? <==> WellFormed(s))
    ensures st.Custom? ==> r == Some(st.call(s))
  {
    match st
    case Custom(f) => Some(f(s))
    case Named(p) =>
      if p == Prim.Normalize then Some(StrFilter.Normalize(u, s))
      else
        DecodeDefinedIffWellFormed(s);
        match Decode(s)
        case None => None
        case Some(t) =>
          var out := ApplyText(u, p, t);
          EncodeWellFormed(out);
          Some(Encode(out))
  }

  /**
   * The filters applied in order; the first one that raises ends the chain. A
   * chain whose last stage is a named primitive yields well-formed UTF-8.
   */
  function Run(u: UnicodeData, filters: seq<Stage>, s: Bytes): (r: Option<Bytes>)
    ensures r.Some? && filters != [] && filters[|filters| - 1].Named? ==> WellFormed(r.value)
    decreases |filters|
  {
    if filters == [] then Some(s)
    else
      match ApplyStage(u, filters[0], s)
      case None => None
      case Some(next) => Run(u, filters[1..], next)
  }

  /** Running two lists one after the other is running their concatenation. */
  lemma {:induction false} RunAppend(u: UnicodeData, a: seq<Stage>, b: seq<Stage>, s: Bytes)
    ensures Run(u, a + b, s) == match Run(u, a, s)
                                case None => None
                                case Some(mid) => Run(u, b, mid)
    decreases |a|
  {
    if a == [] {
      assert a + b == b;
    } else {
      assert (a + b)[0] == a[0] && (a + b)[1..] == a[1..] + b;
      match ApplyStage(u, a[0], s)
      case None =>
      case Some(next) => RunAppend(u, a[1..], b, next);
    }
  }

  /** The filters the constructor installs. */
  function DefaultFilters(retainControlCharacters: bool): (fs: seq<Stage>)
    ensures fs != [] && fs[0] == Named(Prim.Normalize)
  {
    if retainControlCharacters then [Named(Prim.Normalize)]
    else [Named(Prim.Normalize), Named(Prim.NormalizeNewlines), Named(Prim.NoControlCharacters)]
  }

  /** A list of named primitives only never raises on well-formed input, and keeps it well-formed. */
  lemma {:induction false} NamedStagesKeepWellFormed(u: UnicodeData, fs: seq<Stage>, s: Bytes)
    requires forall i :: 0 <= i < |fs| ==> fs[i].Named?
    requires WellFormed(s)
    ensures Run(u, fs, s).Some? && WellFormed(Run(u, fs, s).value)
    decreases |fs|
  {
    if fs != [] {
      var next := ApplyStage(u, fs[0], s).value;
      NamedStagesKeepWellFormed(u, fs[1..], next);
    }
  }

  /**
   * A chain of named primitives that starts with normalize never raises, whatever
   * bytes it is given, and it always yields well-formed UTF-8.
   */
  lemma NamedChainNeverRaises(u: UnicodeData, fs: seq<Stage>, s: Bytes)
    requires fs != [] && fs[0] == Named(Prim.Normalize)
    requires forall i :: 0 <= i < |fs| ==> fs[i].Named?
    ensures Run(u, fs, s).Some? && WellFormed(Run(u, fs, s).value)
  {
    NamedStagesKeepWellFormed(u, fs[1..], StrFilter.Normalize(u, s));
  }

  /**
   * After normalize, every later filter sees well-formed UTF-8: on malformed input
   * the chain continues from the empty string.
   */
  lemma MalformedInputContinuesEmpty(u: UnicodeData, fs: seq<Stage>, s: Bytes)
    requires fs != [] && fs[0] == Named(Prim.Normalize)
    requires !WellFormed(s)
    ensures Run(u, fs, s) == Run(u, fs[1..], [])
  {
  }

  /** With the default filters, malformed input yields the empty string. */
  lemma DefaultsFailClosed(u: UnicodeData, retainControlCharacters: bool, s: Bytes)
    requires !WellFormed(s)
    ensures Run(u, DefaultFilters(retainControlCharacters), s) == Some([])
  {
    assert StrFilter.Normalize(u, s) == [];
    assert Decode([]) == Some([]) && Encode([]) == [];
    if !retainControlCharacters {
      var fs := DefaultFilters(false);
      assert ApplyStage(u, fs[1], []) == Some([]);
      assert ApplyStage(u, fs[2], []) == Some([]);
      assert fs[1..][1..][1..] == [];
    }
  }

  /**
   * With the default filters and control characters not retained, the result is
   * well-formed and holds no CR, U+2028, U+2029 or stripped control character.
   */
  lemma DefaultsCleanText(u: UnicodeData, s: Bytes)
    ensures var r := Run(u, DefaultFilters(false), s);
      && r.Some? && Decode(r.value).Some?
      && var t := Decode(r.value).value;
         forall i :: 0 <= i < |t| ==>
           && t[i] != CR && t[i] != LINE_SEPARATOR && t[i] != PARAGRAPH_SEPARATOR
           && !StrFilter.IsStrippedControl(u, t[i])
  {
    var n := StrFilter.Normalize(u, s);
    DecodeDefinedIffWellFormed(n);
    var t0 := Decode(n).value;
    var t1 := StrFilter.NormalizeNewlines(t0);
    var n1 := Encode(t1);
    EncodeWellFormed(t1);
    DecodeEncode(t1);
    var t2 := StrFilter.NoControlCharacters(u, t1);
    DecodeEncode(t2);
    StrFilter.NoControlCharactersRemoves(u, t1);
    assert Run(u, DefaultFilters(false), s) == Some(Encode(t2));
  }

  /**
   * The filter object. Its filter list always starts with normalize, which the
   * constructor puts there and no method removes.
   */
  class Str {
    var filters: seq<Stage>

    ghost predicate Valid()
      reads this
    {
      filters != [] && filters[0] == Named(Prim.Normalize)
    }

    constructor (retainControlCharacters: bool := false)
      ensures filters == DefaultFilters(retainControlCharacters)
      ensures Valid()
    {
      filters := DefaultFilters(retainControlCharacters);
    }

    /**
     * applyTo: the filters in order. `str` is `None` for a null argument, which the
     * first filter, normalize, rejects with a TypeError.
     */
    method ApplyTo(u: UnicodeData, str: Option<Bytes>) returns (r: Option<Bytes>)
      requires Valid()
      ensures r == if str.None? then None else Run(u, filters, str.value)
    {
      if str.None? {
        return None;
      }
      var s := str.value;
      var i := 0;
      while i < |filters|
        invariant 0 <= i <= |filters|
        invariant Run(u, filters[..i], str.value) == Some(s)
      {
        RunAppend(u, filters[..i], [filters[i]], str.value);
        assert filters[..i + 1] == filters[..i] + [filters[i]];
        var next := ApplyStage(u, filters[i], s);
        if next.None? {
          RunAppend(u, filters[..i + 1], filters[i + 1..], str.value);
          assert filters[..i + 1] + filters[i + 1..] == filters;
          return None;
        }
        s := next.value;
        i := i + 1;
      }
      assert filters[..i] == filters;
      r := Some(s);
    }

    /** fn: appends a user callable. */
    method Fn(fn: Bytes -> Bytes) returns (self: Str)
      requires Valid()
      modifies this
      ensures filters == old(filters) + [Custom(fn)]
      ensures self == this && Valid()
    {
      filters := filters + [Custom(fn)];
      self := this;
    }

    method Normalize() returns (self: Str)
      requires Valid()
      modifies this
      ensures filters == old(filters) + [Named(Prim.Normalize)]
      ensures self == this && Valid()
    {
      filters := filters + [Named(Prim.Normalize)];
      self := this;
    }

    method NormalizeNewlines() returns (self: Str)
      requires Valid()
      modifies this
      ensures filters == old(filters) + [Named(Prim.NormalizeNewlines)]
      ensures self == this && Valid()
    {
      filters := filters + [Named(Prim.NormalizeNewlines)];
      self := this;
    }

    method NoControlCharacters() returns (self: Str)
      requires Valid()
      modifies this
      ensures filters == old(filters) + [Named(Prim.NoControlCharacters)]
      ensures self == this && Valid()
    {
      filters := filters + [Named(Prim.NoControlCharacters)];
      self := this;
    }

    method NoTabs() returns (self: Str)
      requires Valid()
      modifies this
      ensures filters == old(filters) + [Named(Prim.NoTabs)]
      ensures self == this && Valid()
    {
      filters := filters + [Named(Prim.NoTabs)];
      self := this;
    }

    method NoNewlines() returns (self: Str)
      requires Valid()
      modifies this
      ensures filters == old(filters) + [Named(Prim.NoNewlines)]
      ensures self == this && Valid()
    {
      filters := filters + [Named(Prim.NoNewlines)];
      self := this;
    }

    method NoWritingDirections() returns (self: Str)
      requires Valid()
      modifies this
      ensures filters == old(filters) + [Named(Prim.NoWritingDirections)]
      ensures self == this && Valid()
    {
      filters := filters + [Named(Prim.NoWritingDirections)];
      self := this;
    }

    method Trim() returns (self: Str)
      requires Valid()
      modifies this
      ensures filters == old(filters) + [Named(Prim.Trim)]
      ensures self == this && Valid()
    {
      filters := filters + [Named(Prim.Trim)];
      self := this;
    }

    method Upper() returns (self: Str)
      requires Valid()
      modifies this
      ensures filters == old(filters) + [Named(Prim.Upper)]
      ensures self == this && Valid()
    {
      filters := filters + [Named(Prim.Upper)];
      self := this;
    }

    method Lower() returns (self: Str)
      requires Valid()
      modifies this
      ensures filters == old(filters) + [Named(Prim.Lower)]
      ensures self == this && Valid()
    {
      filters := filters + [Named(Prim.Lower)];
      self := this;
    }

    method Hankaku() returns (self: Str)
      requires Valid()
      modifies this
      ensures filters == old(filters) + [Named(Prim.Hankaku)]
      ensures self == this && Valid()
    {
      filters := filters + [Named(Prim.Hankaku)];
      self := this;
    }

    method HankakuAlpha() returns (self: Str)
      requires Valid()
      modifies this
      ensures filters == old(filters) + [Named(Prim.HankakuAlpha)]
      ensures self == this && Valid()
    {
      filters := filters + [Named(Prim.HankakuAlpha)];
      self := this;
    }

    method HankakuDigits() returns (self: Str)
      requires Valid()
      modifies this
      ensures filters == old(filters) + [Named(Prim.HankakuDigits)]
      ensures self == this && Valid()
    {
      filters := filters + [Named(Prim.HankakuDigits)];
      self := this;
    }

    method NoHankakuKana() returns (self: Str)
      requires Valid()
      modifies this
      ensures filters == old(filters) + [Named(Prim.NoHankakuKana)]
      ensures self == this && Valid()
    {
      filters := filters + [Named(Prim.NoHankakuKana)];
      self := this;
    }

    method Hiragana() returns (self: Str)
      requires Valid()
      modifies this
      ensures filters == old(filters) + [Named(Prim.Hiragana)]
      ensures self == this && Valid()
    {
      filters := filters + [Named(Prim.Hiragana)];
      self := this;
    }

    method Katakana() returns (self: Str)
      requires Valid()
      modifies this
      ensures filters == old(filters) + [Named(Prim.Katakana)]
      ensures self == this && Valid()
    {
      filters := filters + [Named(Prim.Katakana)];
      self := this;
    }
  }
}
