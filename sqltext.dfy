/**
 * SQL statement text as the endpoints assemble it, and the count of its `?`
 * placeholders, which the MySQL driver fills from the parameter list by position.
 * A statement is written as a list of tokens rendered with single spaces in
 * between (the source's template literals also carry newlines and indentation,
 * which make no difference to the placeholders).
 */
module SqlText {

  /** The number of `?` characters in a text. */
  function Placeholders(s: string): nat
  {
    if s == [] then 0 else (if s[0] == '?' then 1 else 0) + Placeholders(s[1..])
  }

  /** The total number of `?` characters in a list of texts. */
  function Marks(parts: seq<string>): nat
  {
    if parts == [] then 0 else Placeholders(parts[0]) + Marks(parts[1..])
  }

  /** `parts.join(sep)` in JavaScript. */
  function Join(parts: seq<string>, sep: string): string
  {
    if |parts| == 0 then ""
    else if |parts| == 1 then parts[0]
    else parts[0] + sep + Join(parts[1..], sep)
  }

  /** The statement text for a list of tokens. */
  function Render(tokens: seq<string>): string
  {
    Join(tokens, " ")
  }

  /** Column names qualified by a table alias: rebuilds the spelled-out `e.timestamp, e.eventName, ...` lists. */
  function Qualify(cols: seq<string>, prefix: string): (r: seq<string>)
    ensures |r| == |cols|
    ensures forall k | 0 <= k < |cols| :: r[k] == prefix + cols[k]
  {
    if cols == [] then [] else [prefix + cols[0]] + Qualify(cols[1..], prefix)
  }

  /** `items.map(() => "?").join(",")`: one placeholder per item, separated by commas. */
  function QuestionMarks<T>(items: seq<T>): (s: string)
    ensures Placeholders(s) == |items|
  {
    var marks := seq(|items|, _ => "?");
    MarksOfQuestionMarks(|items|);
    JoinPlaceholders(marks, ",");
    Join(marks, ",")
  }

  lemma {:induction false} PlaceholdersAppend(a: string, b: string)
    ensures Placeholders(a + b) == Placeholders(a) + Placeholders(b)
    decreases |a|
  {
    if a == [] {
      assert a + b == b;
    } else {
      PlaceholdersAppend(a[1..], b);
      assert (a + b)[1..] == a[1..] + b;
    }
  }

  lemma {:induction false} PlaceholdersFree(s: string)
    requires '?' !in s
    ensures Placeholders(s) == 0
    decreases |s|
  {
    if s != [] {
      assert s[0] != '?';
      assert forall c | c in s[1..] :: c in s;
      PlaceholdersFree(s[1..]);
    }
  }

  lemma {:induction false} MarksAppend(a: seq<string>, b: seq<string>)
    ensures Marks(a + b) == Marks(a) + Marks(b)
    decreases |a|
  {
    if a == [] {
      assert a + b == b;
    } else {
      MarksAppend(a[1..], b);
      assert (a + b)[1..] == a[1..] + b;
    }
  }

  lemma {:induction false} MarksFree(parts: seq<string>)
    requires forall k | 0 <= k < |parts| :: '?' !in parts[k]
    ensures Marks(parts) == 0
    decreases |parts|
  {
    if parts != [] {
      PlaceholdersFree(parts[0]);
      MarksFree(parts[1..]);
    }
  }

  lemma {:induction false} MarksOfQuestionMarks(n: nat)
    ensures Marks(seq(n, _ => "?")) == n
  {
    if n > 0 {
      var s := seq(n, _ => "?");
      assert s[1..] == seq(n - 1, _ => "?");
      MarksOfQuestionMarks(n - 1);
      assert Placeholders("?") == 1 by {
        assert "?"[1..] == [];
      }
    }
  }

  lemma MarksSingle(x: string)
    ensures Marks([x]) == Placeholders(x)
  {
    assert [x][1..] == [];
  }

  lemma QuestionMarkCount()
    ensures Placeholders("?") == 1
    ensures Marks(["?"]) == 1
  {
    assert "?"[1..] == [];
    MarksSingle("?");
  }

  /** Joining with a separator free of `?` adds no placeholder. */
  lemma {:induction false} JoinPlaceholders(parts: seq<string>, sep: string)
    requires '?' !in sep
    ensures Placeholders(Join(parts, sep)) == Marks(parts)
    decreases |parts|
  {
    if |parts| == 0 {
    } else if |parts| == 1 {
      assert parts[1..] == [];
    } else {
      JoinPlaceholders(parts[1..], sep);
      PlaceholdersFree(sep);
      PlaceholdersAppend(parts[0], sep);
      PlaceholdersAppend(parts[0] + sep, Join(parts[1..], sep));
    }
  }

  /** The placeholders of a rendered statement are those of its tokens. */
  lemma RenderPlaceholders(tokens: seq<string>)
    ensures Placeholders(Render(tokens)) == Marks(tokens)
  {
    JoinPlaceholders(tokens, " ");
  }

  /** A column list built from names without `?` carries no placeholder. */
  lemma {:induction false} ColumnListFree(cols: seq<string>, prefix: string, sep: string)
    requires forall k | 0 <= k < |cols| :: '?' !in cols[k]
    requires '?' !in prefix && '?' !in sep
    ensures Placeholders(Join(Qualify(cols, prefix), sep)) == 0
  {
    var q := Qualify(cols, prefix);
    forall k | 0 <= k < |q| ensures '?' !in q[k] {
      assert q[k] == prefix + cols[k];
    }
    MarksFree(q);
    JoinPlaceholders(q, sep);
  }
}
