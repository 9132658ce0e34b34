/** Identifier hygiene of epsql.py: turning arbitrary text into table and
    column names, and splitting an optionally schema-qualified table name. */
module Identifiers {
  import opened Text

  /** The character class a sanitizer keeps: \w and '.' for table names
      (so that a schema prefix survives), \w alone for column names. */
  datatype NameClass = TableName | ColumnName

  predicate Kept(cls: NameClass, c: char)
  {
    IsWordChar(c) || (cls == TableName && c == '.')
  }

  predicate AllKept(cls: NameClass, s: string)
  {
    forall i :: 0 <= i < |s| ==> Kept(cls, s[i])
  }

  predicate NoneKept(cls: NameClass, s: string)
  {
    forall i :: 0 <= i < |s| ==> !Kept(cls, s[i])
  }

  /** re.sub(r'^[^K]+', '', s): drop the leading run of characters outside the class. */
  function StripLeading(cls: NameClass, s: string): (r: string)
    ensures |r| <= |s| && r == s[|s| - |r|..]
    ensures NoneKept(cls, s[..|s| - |r|])
    ensures r == [] || Kept(cls, r[0])
    decreases |s|
  {
    if |s| == 0 || Kept(cls, s[0]) then s else StripLeading(cls, s[1..])
  }

  /** re.sub(r'[^K]+$', '', s): drop the trailing run of characters outside the class. */
  function StripTrailing(cls: NameClass, s: string): (r: string)
    ensures |r| <= |s| && r == s[..|r|]
    ensures NoneKept(cls, s[|r|..])
    ensures r == [] || Kept(cls, r[|r| - 1])
    decreases |s|
  {
    if |s| == 0 || Kept(cls, s[|s| - 1]) then s else StripTrailing(cls, s[..|s| - 1])
  }

  /** re.sub(r'[^K]+', '_', s): replace every maximal run of characters outside
      the class by one underscore. */
  function Collapse(cls: NameClass, s: string): (r: string)
    ensures |r| <= |s|
    ensures AllKept(cls, r)
    decreases |s|
  {
    if |s| == 0 then ""
    else if Kept(cls, s[0]) then [s[0]] + Collapse(cls, s[1..])
    else "_" + Collapse(cls, StripLeading(cls, s))
  }

  /** The three substitutions followed by lower(), as both sanitizers do:
      every character of the result is a kept one and none is upper case,
      so the result neither starts nor ends outside the class. */
  function Sanitize(cls: NameClass, s: string): (r: string)
    ensures |r| <= |s|
    ensures forall i :: 0 <= i < |r| ==> Kept(cls, r[i]) && !IsUpper(r[i])
  {
    var c := Collapse(cls, StripTrailing(cls, StripLeading(cls, s)));
    LowerKept(cls, c);
    Lower(c)
  }

  /** lower() keeps every character in its class. */
  lemma LowerKept(cls: NameClass, c: string)
    requires AllKept(cls, c)
    ensures AllKept(cls, Lower(c))
  {
    forall i | 0 <= i < |c|
      ensures Kept(cls, LowerChar(c[i]))
    {
      assert Kept(cls, c[i]);
    }
  }

  /** sanitize_table_name: only lower-case word characters and '.', no
      longer than the input. */
  function SanitizeTableName(name: string): (r: string)
    ensures |r| <= |name|
    ensures forall i :: 0 <= i < |r| ==> (IsWordChar(r[i]) || r[i] == '.') && !IsUpper(r[i])
  {
    Sanitize(TableName, name)
  }

  /** sanitize_column_name: only lower-case word characters (so never a '.'),
      no longer than the input. */
  function SanitizeColumnName(colname: string): (r: string)
    ensures |r| <= |colname|
    ensures forall i :: 0 <= i < |r| ==> IsWordChar(r[i]) && !IsUpper(r[i])
    ensures '.' !in r
  {
    SanitizeColumnNoDot(colname);
    Sanitize(ColumnName, colname)
  }

  lemma SanitizeColumnNoDot(s: string)
    ensures forall i :: 0 <= i < |Sanitize(ColumnName, s)| ==> IsWordChar(Sanitize(ColumnName, s)[i])
    ensures '.' !in Sanitize(ColumnName, s)
  {
    var r := Sanitize(ColumnName, s);
    assert forall i :: 0 <= i < |r| ==> r[i] != '.';
  }

  /** The sanitized name is empty exactly when the input holds no kept character. */
  lemma SanitizeEmpty(cls: NameClass, s: string)
    ensures Sanitize(cls, s) == [] <==> NoneKept(cls, s)
  {
    var a := StripLeading(cls, s);
    var b := StripTrailing(cls, a);
    var c := Collapse(cls, b);
    assert |Sanitize(cls, s)| == |c|;
    if NoneKept(cls, s) {
      NoneKeptStripLeading(cls, s);
      assert c == [];
    } else {
      KeptSurvives(cls, s);
      assert c == [b[0]] + Collapse(cls, b[1..]);
    }
  }

  /** A string with a kept character keeps one at the head after trimming. */
  lemma KeptSurvives(cls: NameClass, s: string)
    requires !NoneKept(cls, s)
    ensures var b := StripTrailing(cls, StripLeading(cls, s)); b != [] && Kept(cls, b[0])
  {
    var i :| 0 <= i < |s| && Kept(cls, s[i]);
    LeadingKept(cls, s, i);
    TrailingKeepsHead(cls, StripLeading(cls, s));
  }

  lemma {:induction false} LeadingKept(cls: NameClass, s: string, i: nat)
    requires i < |s| && Kept(cls, s[i])
    ensures StripLeading(cls, s) != []
    decreases i
  {
    if !Kept(cls, s[0]) {
      LeadingKept(cls, s[1..], i - 1);
    }
  }

  lemma {:induction false} TrailingKeepsHead(cls: NameClass, a: string)
    requires a != [] && Kept(cls, a[0])
    ensures StripTrailing(cls, a) != [] && StripTrailing(cls, a)[0] == a[0]
    decreases |a|
  {
    if !Kept(cls, a[|a| - 1]) {
      TrailingKeepsHead(cls, a[..|a| - 1]);
    }
  }

  lemma {:induction false} NoneKeptStripLeading(cls: NameClass, s: string)
    requires NoneKept(cls, s)
    ensures StripLeading(cls, s) == []
    decreases |s|
  {
    if |s| > 0 {
      NoneKeptStripLeading(cls, s[1..]);
    }
  }

  /** A string of kept characters passes through Collapse unchanged. */
  lemma {:induction false} CollapseKept(cls: NameClass, s: string)
    requires AllKept(cls, s)
    ensures Collapse(cls, s) == s
    decreases |s|
  {
    if |s| > 0 {
      CollapseKept(cls, s[1..]);
      assert [s[0]] + s[1..] == s;
    }
  }

  /** A string of lower-case kept characters is already sanitized. */
  lemma SanitizeFixpoint(cls: NameClass, s: string)
    requires AllKept(cls, s)
    requires forall i :: 0 <= i < |s| ==> !IsUpper(s[i])
    ensures Sanitize(cls, s) == s
  {
    assert StripLeading(cls, s) == s;
    assert StripTrailing(cls, s) == s;
    CollapseKept(cls, s);
    LowerOfLower(s);
  }

  /** Sanitizing twice is sanitizing once. */
  lemma SanitizeIdempotent(cls: NameClass, s: string)
    ensures Sanitize(cls, Sanitize(cls, s)) == Sanitize(cls, s)
  {
    var r := Sanitize(cls, s);
    var c := Collapse(cls, StripTrailing(cls, StripLeading(cls, s)));
    assert forall i :: 0 <= i < |r| ==> Kept(cls, r[i]) by {
      forall i | 0 <= i < |r| ensures Kept(cls, r[i]) {
        assert Kept(cls, c[i]);
      }
    }
    SanitizeFixpoint(cls, r);
  }

  lemma SanitizeTableNameIdempotent(name: string)
    ensures SanitizeTableName(SanitizeTableName(name)) == SanitizeTableName(name)
  {
    SanitizeIdempotent(TableName, name);
  }

  lemma SanitizeColumnNameIdempotent(colname: string)
    ensures SanitizeColumnName(SanitizeColumnName(colname)) == SanitizeColumnName(colname)
  {
    SanitizeIdempotent(ColumnName, colname);
  }

  // ---------------------------------------------------------------------------
  // An independent description of the sanitizers: the maximal runs of kept
  // characters, lower-cased and joined with single underscores.

  /** The longest prefix of s made of kept characters. */
  function KeptPrefix(cls: NameClass, s: string): (w: string)
    ensures |w| <= |s| && w == s[..|w|] && AllKept(cls, w)
    ensures |s| > 0 && Kept(cls, s[0]) ==> |w| > 0
    ensures |w| < |s| ==> !Kept(cls, s[|w|])
    decreases |s|
  {
    if |s| == 0 || !Kept(cls, s[0]) then "" else [s[0]] + KeptPrefix(cls, s[1..])
  }

  /** The maximal runs of kept characters of s, in order. */
  function Words(cls: NameClass, s: string): seq<string>
    decreases |s|
  {
    var t := StripLeading(cls, s);
    if |t| == 0 then []
    else
      var w := KeptPrefix(cls, t);
      assert |t[|w|..]| < |s|;
      [w] + Words(cls, t[|w|..])
  }

  /** The sanitized name is the input's runs of kept characters, lower-cased
      and joined with "_". */
  lemma SanitizeIsJoinedWords(cls: NameClass, s: string)
    ensures Sanitize(cls, s) == Lower(Join(Words(cls, s), "_"))
  {
    CollapseOfTrimmed(cls, StripLeading(cls, s));
    WordsStripped(cls, s);
  }

  lemma WordsStripped(cls: NameClass, s: string)
    ensures Words(cls, StripLeading(cls, s)) == Words(cls, s)
  {
    StripLeadingIdempotent(cls, s);
  }

  lemma StripLeadingIdempotent(cls: NameClass, s: string)
    ensures StripLeading(cls, StripLeading(cls, s)) == StripLeading(cls, s)
  {
  }

  /** The heart of the characterization, for a string whose leading run has
      already been removed. */
  lemma {:induction false} CollapseOfTrimmed(cls: NameClass, t: string)
    requires t == [] || Kept(cls, t[0])
    ensures Collapse(cls, StripTrailing(cls, t)) == Join(Words(cls, t), "_")
    decreases |t|
  {
    if |t| > 0 {
      var w := KeptPrefix(cls, t);
      var rest := t[|w|..];
      assert t == w + rest;
      assert Words(cls, t) == [w] + Words(cls, rest);
      if StripLeading(cls, rest) == [] {
        LastWord(cls, w, rest);
      } else {
        CollapseOfTrimmed(cls, StripLeading(cls, rest));
        WordsStripped(cls, rest);
        NextWord(cls, w, rest);
      }
    }
  }

  /** The case of CollapseOfTrimmed where the first run is the only one. */
  lemma LastWord(cls: NameClass, w: string, rest: string)
    requires AllKept(cls, w)
    requires StripLeading(cls, rest) == []
    ensures Collapse(cls, StripTrailing(cls, w + rest)) == Join([w] + Words(cls, rest), "_")
  {
    assert rest[..|rest| - |StripLeading(cls, rest)|] == rest;
    StripTrailingNoneKept(cls, w, rest);
    CollapseKept(cls, w);
    assert Words(cls, rest) == [];
    assert [w] + Words(cls, rest) == [w];
  }

  /** The case of CollapseOfTrimmed where another run follows the first: the
      gap between them becomes one underscore. */
  lemma NextWord(cls: NameClass, w: string, rest: string)
    requires AllKept(cls, w)
    requires |rest| > 0 && !Kept(cls, rest[0])
    requires StripLeading(cls, rest) != []
    requires Collapse(cls, StripTrailing(cls, StripLeading(cls, rest))) == Join(Words(cls, rest), "_")
    ensures Collapse(cls, StripTrailing(cls, w + rest)) == Join([w] + Words(cls, rest), "_")
  {
    var rest' := StripLeading(cls, rest);
    var ws := Words(cls, rest);
    WordsNonEmpty(cls, rest);
    FirstGap(cls, w, rest, |rest| - |rest'|);
    StripCommute(cls, rest);
    JoinCons(w, ws);
  }

  /** Steps of NextWord up to the underscore that replaces the gap. */
  lemma FirstGap(cls: NameClass, w: string, rest: string, i: nat)
    requires AllKept(cls, w)
    requires |rest| > 0 && !Kept(cls, rest[0])
    requires i < |rest| && Kept(cls, rest[i])
    ensures Collapse(cls, StripTrailing(cls, w + rest))
         == w + "_" + Collapse(cls, StripLeading(cls, StripTrailing(cls, rest)))
  {
    var u := StripTrailing(cls, rest);
    StripTrailingKeepsPrefix(cls, w, rest, i);
    CollapsePrefix(cls, w, u);
    GapCollapses(cls, rest, i);
  }

  lemma WordsNonEmpty(cls: NameClass, s: string)
    requires StripLeading(cls, s) != []
    ensures Words(cls, s) != []
  {
  }

  /** After the trailing strip, the leading gap of rest turns into one underscore. */
  lemma GapCollapses(cls: NameClass, rest: string, i: nat)
    requires |rest| > 0 && !Kept(cls, rest[0])
    requires i < |rest| && Kept(cls, rest[i])
    ensures Collapse(cls, StripTrailing(cls, rest)) == "_" + Collapse(cls, StripLeading(cls, StripTrailing(cls, rest)))
  {
    var u := StripTrailing(cls, rest);
    StripTrailingNonEmpty(cls, rest, i);
    assert u[0] == rest[0];
  }

  /** Words of a string with a kept character are not empty, and joining
      a further run in front adds one separator. */
  lemma JoinCons(w: string, ws: seq<string>)
    requires ws != []
    ensures Join([w] + ws, "_") == w + "_" + Join(ws, "_")
  {
    assert ([w] + ws)[1..] == ws;
  }

  lemma {:induction false} StripTrailingNonEmpty(cls: NameClass, s: string, i: nat)
    requires i < |s| && Kept(cls, s[i])
    ensures |StripTrailing(cls, s)| > i
    decreases |s|
  {
    if !Kept(cls, s[|s| - 1]) {
      StripTrailingNonEmpty(cls, s[..|s| - 1], i);
    }
  }

  /** Stripping the trailing run of w + r, where r is all outside the class, leaves w's own. */
  lemma {:induction false} StripTrailingNoneKept(cls: NameClass, w: string, r: string)
    requires NoneKept(cls, r)
    requires AllKept(cls, w)
    ensures StripTrailing(cls, w + r) == w
    decreases |r|
  {
    if |r| == 0 {
      assert w + r == w;
    } else {
      var s := w + r;
      assert !Kept(cls, s[|s| - 1]);
      assert s[..|s| - 1] == w + r[..|r| - 1];
      StripTrailingNoneKept(cls, w, r[..|r| - 1]);
    }
  }

  /** When r holds a kept character, stripping the trailing run of w + r only touches r. */
  lemma {:induction false} StripTrailingKeepsPrefix(cls: NameClass, w: string, r: string, i: nat)
    requires i < |r| && Kept(cls, r[i])
    ensures StripTrailing(cls, w + r) == w + StripTrailing(cls, r)
    decreases |r|
  {
    var s := w + r;
    assert s[|s| - 1] == r[|r| - 1];
    if !Kept(cls, r[|r| - 1]) {
      assert i < |r| - 1;
      assert s[..|s| - 1] == w + r[..|r| - 1];
      assert StripTrailing(cls, s) == StripTrailing(cls, s[..|s| - 1]);
      assert StripTrailing(cls, r) == StripTrailing(cls, r[..|r| - 1]);
      StripTrailingKeepsPrefix(cls, w, r[..|r| - 1], i);
    } else {
      assert StripTrailing(cls, s) == s && StripTrailing(cls, r) == r;
    }
  }

  /** A prefix of kept characters is copied through Collapse. */
  lemma {:induction false} CollapsePrefix(cls: NameClass, w: string, x: string)
    requires AllKept(cls, w)
    ensures Collapse(cls, w + x) == w + Collapse(cls, x)
    decreases |w|
  {
    if |w| == 0 {
      assert w + x == x;
    } else {
      assert (w + x)[1..] == w[1..] + x;
      CollapsePrefix(cls, w[1..], x);
      assert [w[0]] + w[1..] == w;
    }
  }

  /** Removing the leading and the trailing runs can be done in either order. */
  lemma {:induction false} StripCommute(cls: NameClass, s: string)
    ensures StripLeading(cls, StripTrailing(cls, s)) == StripTrailing(cls, StripLeading(cls, s))
    decreases |s|
  {
    if |s| > 0 && !Kept(cls, s[0]) {
      // the leading character goes either way
      var t := StripTrailing(cls, s);
      if |t| == 0 {
        StripTrailingEmpty(cls, s);
      } else {
        assert t[0] == s[0];
        assert StripTrailing(cls, s[1..]) == t[1..] by {
          StripTrailingTail(cls, s);
        }
        StripCommute(cls, s[1..]);
      }
    }
  }

  lemma {:induction false} StripTrailingEmpty(cls: NameClass, s: string)
    requires StripTrailing(cls, s) == []
    ensures StripTrailing(cls, StripLeading(cls, s)) == []
  {
    var a := StripLeading(cls, s);
    assert NoneKept(cls, s);
    assert a == s[|s| - |a|..];
    NoneKeptStripLeading(cls, s);
  }

  /** Dropping a first character that is outside the class commutes with the trailing strip. */
  lemma {:induction false} StripTrailingTail(cls: NameClass, s: string)
    requires |s| > 0 && !Kept(cls, s[0])
    requires StripTrailing(cls, s) != []
    ensures StripTrailing(cls, s[1..]) == StripTrailing(cls, s)[1..]
    decreases |s|
  {
    if !Kept(cls, s[|s| - 1]) {
      assert |s| >= 2;
      var s' := s[..|s| - 1];
      assert s'[1..] == s[1..][..|s[1..]| - 1];
      StripTrailingTail(cls, s');
    }
  }

  // ---------------------------------------------------------------------------
  // get_table_name and get_schema

  /** get_table_name: the text after the last '.', or the whole name. */
  function GetTableName(name: string): (r: string)
    ensures '.' !in r
    ensures '.' !in name ==> r == name
    ensures '.' in name ==> |r| < |name| && name[|name| - |r| - 1] == '.' && name[|name| - |r|..] == r
  {
    if '.' in name then
      var parts := Split(name, '.');
      SplitPiecesFree(name, '.');
      SplitLast(name, '.');
      parts[|parts| - 1]
    else name
  }

  /** get_schema: the text before the first '.', or "public" when there is none. */
  function GetSchema(name: string): (r: string)
    ensures '.' !in r
    ensures '.' !in name ==> r == "public"
    ensures '.' in name ==> |r| < |name| && name[..|r|] == r && name[|r|] == '.'
  {
    if '.' in name then
      SplitPiecesFree(name, '.');
      SplitFirst(name, '.');
      Split(name, '.')[0]
    else "public"
  }

  /** A name of the form schema.table with dot-free parts splits back into them. */
  lemma QualifiedNameParts(schema: string, table: string)
    requires '.' !in schema && '.' !in table
    ensures GetSchema(schema + "." + table) == schema
    ensures GetTableName(schema + "." + table) == table
  {
    var n := schema + "." + table;
    assert n[|schema|] == '.';
    var s := GetSchema(n);
    var t := GetTableName(n);
  }
}
