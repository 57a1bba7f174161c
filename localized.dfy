/**
 * `LocalizedString`: the keys of the string table, and `String.localized`,
 * which looks a key up and then substitutes the `{placeholder}` variables.
 * The table lookup (`NSLocalizedString`, falling back to the key itself) is
 * a map parameter; `replacingOccurrences(of:with:)` is written out as a
 * left-to-right scan that replaces non-overlapping occurrences.
 */
module Localized {

  datatype LocalizedString =
    | Title | EmptyViewTitle | EmptyViewSubtitle | Convert | Cancel | Share | ConvertTo
    | Delete | Kind | ShaprDocument | Size | Created | Modified | LastOpened | Unknown
  {
    /** `key`: the case's own name, `String(describing: self)`. */
    function Key(): string
    {
      match this
      case Title => "title"
      case EmptyViewTitle => "empty_view_title"
      case EmptyViewSubtitle => "empty_view_subtitle"
      case Convert => "convert"
      case Cancel => "cancel"
      case Share => "share"
      case ConvertTo => "convert_to"
      case Delete => "delete"
      case Kind => "kind"
      case ShaprDocument => "shapr_document"
      case Size => "size"
      case Created => "created"
      case Modified => "modified"
      case LastOpened => "last_opened"
      case Unknown => "unknown"
    }
  }

  /** Case names are distinct, so no two strings share a table key. */
  lemma KeysDistinct(a: LocalizedString, b: LocalizedString)
    ensures a.Key() == b.Key() <==> a == b
  {
  }

  /** `LocalizedString.Placeholder`, a `String` enum with the single case `format`. */
  datatype Placeholder = Format
  {
    function RawValue(): string
    {
      "format"
    }

    /** The text replaced in a localized string: the raw value in braces. */
    function Pattern(): string
    {
      "{" + RawValue() + "}"
    }
  }

  /** There is one placeholder and its pattern is `{format}`. */
  lemma PlaceholderIsFormat(p: Placeholder)
    ensures p == Format && p.Pattern() == "{format}"
  {
  }

  /** `pattern` occurs in `s` starting at index `i`. */
  predicate OccursAt(s: string, pattern: string, i: nat)
  {
    i + |pattern| <= |s| && s[i..i + |pattern|] == pattern
  }

  /**
   * `s.replacingOccurrences(of: pattern, with: value)`: scanning from the
   * left, an occurrence is replaced and the scan resumes after it; an empty
   * pattern leaves the string as it is.
   */
  function ReplaceAll(s: string, pattern: string, value: string): string
    decreases |s|
  {
    if pattern == [] || |s| < |pattern| then s
    else if s[..|pattern|] == pattern then value + ReplaceAll(s[|pattern|..], pattern, value)
    else [s[0]] + ReplaceAll(s[1..], pattern, value)
  }

  /** A string without an occurrence of the pattern is left unchanged. */
  lemma {:induction false} NoOccurrenceUnchanged(s: string, pattern: string, value: string)
    requires forall i: nat :: !OccursAt(s, pattern, i)
    ensures ReplaceAll(s, pattern, value) == s
    decreases |s|
  {
    if pattern != [] && |s| >= |pattern| {
      assert !OccursAt(s, pattern, 0);
      forall i: nat ensures !OccursAt(s[1..], pattern, i) {
        assert !OccursAt(s, pattern, i + 1);
        if i + |pattern| <= |s[1..]| {
          assert s[1..][i..i + |pattern|] == s[i + 1..i + 1 + |pattern|];
        }
      }
      NoOccurrenceUnchanged(s[1..], pattern, value);
      assert [s[0]] + s[1..] == s;
    }
  }

  /**
   * Left to right: a prefix in which no occurrence starts is copied as it
   * is, and the scan goes on with the rest.
   */
  lemma {:induction false} FreePrefixCopied(prefix: string, rest: string, pattern: string, value: string)
    requires forall i: nat :: i < |prefix| ==> !OccursAt(prefix + rest, pattern, i)
    ensures ReplaceAll(prefix + rest, pattern, value) == prefix + ReplaceAll(rest, pattern, value)
    decreases |prefix|
  {
    if prefix == [] {
      assert prefix + rest == rest;
    } else if pattern == [] {
    } else if |prefix + rest| < |pattern| {
      NoOccurrenceUnchanged(rest, pattern, value);
    } else {
      FirstCopied(prefix + rest, pattern, value);
      TailFree(prefix, rest, pattern);
      FreePrefixCopied(prefix[1..], rest, pattern, value);
      assert [prefix[0]] + prefix[1..] == prefix;
    }
  }

  /** Where no occurrence starts at the front, the first character is copied. */
  lemma FirstCopied(s: string, pattern: string, value: string)
    requires pattern != [] && |pattern| <= |s| && !OccursAt(s, pattern, 0)
    ensures ReplaceAll(s, pattern, value) == [s[0]] + ReplaceAll(s[1..], pattern, value)
  {
  }

  /** A free prefix stays free once its first character is dropped. */
  lemma TailFree(prefix: string, rest: string, pattern: string)
    requires prefix != []
    requires forall i: nat :: i < |prefix| ==> !OccursAt(prefix + rest, pattern, i)
    ensures (prefix + rest)[1..] == prefix[1..] + rest
    ensures forall i: nat :: i < |prefix[1..]| ==> !OccursAt(prefix[1..] + rest, pattern, i)
  {
    var s := prefix + rest;
    assert s[1..] == prefix[1..] + rest;
    forall i: nat | i < |prefix[1..]| ensures !OccursAt(prefix[1..] + rest, pattern, i) {
      assert !OccursAt(s, pattern, i + 1);
      if i + |pattern| <= |s[1..]| {
        assert s[1..][i..i + |pattern|] == s[i + 1..i + 1 + |pattern|];
      }
    }
  }

  /** An occurrence at the scan position is replaced, and the scan resumes right after it. */
  lemma OccurrenceReplaced(rest: string, pattern: string, value: string)
    requires pattern != []
    ensures ReplaceAll(pattern + rest, pattern, value) == value + ReplaceAll(rest, pattern, value)
  {
    assert (pattern + rest)[..|pattern|] == pattern;
    assert (pattern + rest)[|pattern|..] == rest;
  }

  /** Replacing the pattern by itself changes nothing. */
  lemma {:induction false} ReplaceBySelf(s: string, pattern: string)
    ensures ReplaceAll(s, pattern, pattern) == s
    decreases |s|
  {
    if pattern != [] && |s| >= |pattern| {
      if s[..|pattern|] == pattern {
        ReplaceBySelf(s[|pattern|..], pattern);
        assert s[..|pattern|] + s[|pattern|..] == s;
      } else {
        ReplaceBySelf(s[1..], pattern);
        assert [s[0]] + s[1..] == s;
      }
    }
  }

  /** What substituting `variables` into `s` gives: `{format}` replaced by its value, if it has one. */
  function Substituted(s: string, variables: map<Placeholder, string>): string
  {
    if Format in variables then ReplaceAll(s, Format.Pattern(), variables[Format]) else s
  }

  /** No variables, or a string without `{format}`, give the string back. */
  lemma SubstitutedUnchanged(s: string, variables: map<Placeholder, string>)
    requires variables == map[] || forall i: nat :: !OccursAt(s, "{format}", i)
    ensures Substituted(s, variables) == s
  {
    if Format in variables {
      assert Format.Pattern() == "{format}";
      NoOccurrenceUnchanged(s, Format.Pattern(), variables[Format]);
    }
  }

  /**
   * `replacingPlaceholders(with:)`: replaces each variable's pattern in
   * turn, in whatever order the dictionary yields them; the result does not
   * depend on that order.
   */
  method ReplacingPlaceholders(s: string, variables: map<Placeholder, string>) returns (result: string)
    ensures result == Substituted(s, variables)
    ensures variables == map[] ==> result == s
  {
    result := s;
    var remaining := variables.Keys;
    while remaining != {}
      invariant remaining <= variables.Keys
      invariant Format in remaining ==> result == s
      invariant Format !in remaining ==> result == Substituted(s, variables)
      decreases remaining
    {
      var placeholder :| placeholder in remaining;
      PlaceholderIsFormat(placeholder);
      result := ReplaceAll(result, placeholder.Pattern(), variables[placeholder]);
      remaining := remaining - {placeholder};
    }
  }

  /** `NSLocalizedString` with `value: key`: the table's entry, or the key itself when it has none. */
  function Lookup(table: map<string, string>, key: string): (text: string)
    ensures key in table ==> text == table[key]
    ensures key !in table ==> text == key
  {
    if key in table then table[key] else key
  }

  /** `String.localized(_:_:)`: the looked-up text with the variables substituted. */
  method LocalizedText(key: LocalizedString, table: map<string, string>, variables: map<Placeholder, string>)
    returns (text: string)
    ensures text == Substituted(Lookup(table, key.Key()), variables)
    ensures key.Key() !in table && variables == map[] ==> text == key.Key()
  {
    text := ReplacingPlaceholders(Lookup(table, key.Key()), variables);
  }
}
