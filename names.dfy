/** Group names and the kind of group a name selects.
    A group is named "<kind>_<index>"; the kind is the part of the name before
    the first underscore, as Python's `name.split('_')[0]` computes it. */
module Names {

  datatype Option<T> = None | Some(value: T)

  /** The three kinds of constraint group a cell points back to. */
  datatype Kind = Row | Col | Square

  /** Python's `s.split('_')`: the pieces between underscores, in order.
      There is always at least one piece, and no piece holds an underscore
      ("" gives [""], "a_" gives ["a", ""]). */
  function Split(s: string): (parts: seq<string>)
    ensures |parts| >= 1
    ensures forall i :: 0 <= i < |parts| ==> '_' !in parts[i]
    ensures |parts| - 1 == |s| - |FilterOut(s)|
  {
    if s == [] then [[]]
    else if s[0] == '_' then [[]] + Split(s[1..])
    else
      var rest := Split(s[1..]);
      [[s[0]] + rest[0]] + rest[1..]
  }

  /** The characters of s other than underscores. */
  function FilterOut(s: string): string
  {
    if s == [] then []
    else if s[0] == '_' then FilterOut(s[1..])
    else [s[0]] + FilterOut(s[1..])
  }

  /** Python's `'_'.join(parts)` of a non-empty list, the inverse of Split. */
  function Join(parts: seq<string>): string
    requires |parts| >= 1
  {
    if |parts| == 1 then parts[0] else parts[0] + "_" + Join(parts[1..])
  }

  /** Joining the pieces of a split gives back the string. */
  lemma {:induction false} JoinSplit(s: string)
    ensures Join(Split(s)) == s
  {
    if s == [] {
    } else if s[0] == '_' {
      JoinSplit(s[1..]);
      assert s == "_" + s[1..];
    } else {
      var rest := Split(s[1..]);
      JoinSplit(s[1..]);
      if |rest| == 1 {
        assert s == [s[0]] + rest[0];
      } else {
        assert Join(rest) == rest[0] + "_" + Join(rest[1..]);
        assert s == [s[0]] + rest[0] + "_" + Join(rest[1..]);
      }
    }
  }

  /** Prepending underscore-free text to a string glues it onto the first piece. */
  lemma {:induction false} SplitPrepend(a: string, s: string)
    requires '_' !in a
    ensures Split(a + s) == [a + Split(s)[0]] + Split(s)[1..]
  {
    if a == [] {
      assert a + s == s && a + Split(s)[0] == Split(s)[0];
      assert Split(s) == [Split(s)[0]] + Split(s)[1..];
    } else {
      assert (a + s)[1..] == a[1..] + s;
      assert '_' !in a[1..] by {
        forall i | 0 <= i < |a[1..]| ensures a[1..][i] != '_' { assert a[1..][i] == a[i + 1]; }
      }
      SplitPrepend(a[1..], s);
      var rest := Split(a[1..] + s);
      assert rest == [a[1..] + Split(s)[0]] + Split(s)[1..];
      assert (a + s)[0] == a[0] && a[0] != '_';
      assert Split(a + s) == [[a[0]] + rest[0]] + rest[1..];
      assert [a[0]] + (a[1..] + Split(s)[0]) == a + Split(s)[0];
    }
  }

  /** Splitting a join of underscore-free pieces gives back the pieces. */
  lemma {:induction false} SplitJoin(parts: seq<string>)
    requires |parts| >= 1
    requires forall i :: 0 <= i < |parts| ==> '_' !in parts[i]
    ensures Split(Join(parts)) == parts
  {
    SplitPrepend(parts[0], []);
    assert parts[0] + [] == parts[0];
    if |parts| > 1 {
      SplitJoin(parts[1..]);
      var tail := "_" + Join(parts[1..]);
      assert tail[1..] == Join(parts[1..]);
      assert Split(tail) == [[]] + parts[1..];
      SplitPrepend(parts[0], tail);
      assert parts[0] + "_" + Join(parts[1..]) == parts[0] + tail;
      assert parts == [parts[0]] + parts[1..];
    }
  }

  /** The first piece of a split is p exactly when p holds no underscore and the
      string is p itself or p followed by an underscore. */
  lemma {:induction false} HeadIs(s: string, p: string)
    ensures Split(s)[0] == p <==> '_' !in p && (s == p || p + "_" <= s)
  {
    if '_' !in p && (s == p || p + "_" <= s) {
      var t := s[|p|..];
      assert s == p + t;
      SplitPrepend(p, t);
      assert t == [] || t[0] == '_';
    }
    if Split(s)[0] == p {
      HeadIsPrefix(s);
    }
  }

  /** The first piece of a split is a prefix of the string, ended by an
      underscore or by the end of the string. */
  lemma {:induction false} HeadIsPrefix(s: string)
    ensures var h := Split(s)[0]; s == h || h + "_" <= s
  {
    if s != [] && s[0] != '_' {
      HeadIsPrefix(s[1..]);
      assert s == [s[0]] + s[1..];
    }
  }

  /** The kind of group a name selects: the first piece of the name when it is
      "row", "col" or "square", and nothing otherwise. */
  function KindOf(name: string): (k: Option<Kind>)
    ensures k == Some(Row) <==> name == "row" || "row_" <= name
    ensures k == Some(Col) <==> name == "col" || "col_" <= name
    ensures k == Some(Square) <==> name == "square" || "square_" <= name
  {
    HeadIs(name, "row");
    HeadIs(name, "col");
    HeadIs(name, "square");
    var head := Split(name)[0];
    if head == "row" then Some(Row)
    else if head == "col" then Some(Col)
    else if head == "square" then Some(Square)
    else None
  }

  /** The names the board uses, "<kind>_<index>", select their kind whatever the index. */
  lemma GroupNameKind(index: string)
    ensures KindOf("row_" + index) == Some(Row)
    ensures KindOf("col_" + index) == Some(Col)
    ensures KindOf("square_" + index) == Some(Square)
  {
  }
}
