/**
 * The table name `ORMBase` derives from a model's class name:
 * `re.sub(r"(?<!^)(?=[A-Z])", "_", name).lower()`, CamelCase to snake_case.
 */
module ModelBase {
  import opened Text

  /** How many characters of `s` are in `[A-Z]`. */
  function UpperCount(s: string): nat {
    if s == [] then 0 else (if IsAsciiUpper(s[0]) then 1 else 0) + UpperCount(s[1..])
  }

  /** `t` with `_` put before each character in `[A-Z]`. */
  function MarkUpper(t: string): string {
    if t == [] then [] else (if IsAsciiUpper(t[0]) then ['_', t[0]] else [t[0]]) + MarkUpper(t[1..])
  }

  lemma {:induction false} MarkUpperLength(t: string)
    ensures |MarkUpper(t)| == |t| + UpperCount(t)
    decreases |t|
  {
    if t != [] {
      MarkUpperLength(t[1..]);
    }
  }

  /**
   * The substitution: the pattern matches the empty string before every
   * `[A-Z]` character except at position 0 (`(?<!^)`), and each match
   * becomes `_`.
   */
  function InsertUnderscores(name: string): (r: string)
    ensures |r| == |name| + (if name == [] then 0 else UpperCount(name[1..]))
    ensures name != [] ==> r[0] == name[0]
    ensures DropUnderscores(r) == DropUnderscores(name)
  {
    if name == [] then [] else
      MarkUpperLength(name[1..]);
      MarkUpperDropped(name[1..]);
      DropUnderscoresAppend([name[0]], MarkUpper(name[1..]));
      DropUnderscoresAppend([name[0]], name[1..]);
      assert [name[0]] + name[1..] == name;
      [name[0]] + MarkUpper(name[1..])
  }

  /**
   * `__tablename__`: the result is lower-case, starts with the lowered first
   * character of the name (never with an inserted `_`), and is longer than
   * the name by one for each upper-case letter after the first position.
   */
  function TableName(className: string): (r: string)
    ensures NoAsciiUpper(r)
    ensures |r| == |className| + (if className == [] then 0 else UpperCount(className[1..]))
    ensures className != [] ==> r[0] == LowerChar(className[0])
  {
    Lower(InsertUnderscores(className))
  }

  /** Where character `k` of `t` lands in `MarkUpper(t)`, and the `_` before it when it is upper-case. */
  lemma {:induction false} MarkUpperPosition(t: string, k: nat)
    requires k < |t|
    ensures var p := k + UpperCount(t[..k + 1]);
      && p < |MarkUpper(t)| && MarkUpper(t)[p] == t[k]
      && (IsAsciiUpper(t[k]) ==> MarkUpper(t)[p - 1] == '_')
    decreases k
  {
    MarkUpperLength(t);
    var head: string := if IsAsciiUpper(t[0]) then ['_', t[0]] else [t[0]];
    assert MarkUpper(t) == head + MarkUpper(t[1..]);
    if k > 0 {
      MarkUpperPosition(t[1..], k - 1);
      assert t[..k + 1][1..] == t[1..][..k];
      assert t[1..][k - 1] == t[k];
    }
  }

  /**
   * The underscores go exactly before the upper-case letters after position
   * 0: character `k >= 1` of the name lands at `k` plus the number of
   * upper-case letters in positions 1..k, lowered, with `_` just before it
   * when it is upper-case. With the length in `TableName`'s contract, these
   * are the only underscores added.
   */
  lemma TableNamePosition(name: string, k: nat)
    requires 1 <= k < |name|
    ensures var r, p := TableName(name), k + UpperCount(name[1..k + 1]);
      && p < |r| && r[p] == LowerChar(name[k])
      && (IsAsciiUpper(name[k]) ==> r[p - 1] == '_')
  {
    var t := name[1..];
    var ins := [name[0]] + MarkUpper(t);
    assert TableName(name) == Lower(ins);
    MarkUpperPosition(t, k - 1);
    assert t[..k] == name[1..k + 1];
    assert t[k - 1] == name[k];
    var q := k - 1 + UpperCount(t[..k]);
    assert ins[q + 1] == MarkUpper(t)[q];
    if IsAsciiUpper(name[k]) {
      assert ins[q] == MarkUpper(t)[q - 1];
    }
  }

  /** `s` with every `_` removed. */
  function DropUnderscores(s: string): string {
    if s == [] then [] else (if s[0] == '_' then [] else [s[0]]) + DropUnderscores(s[1..])
  }

  lemma {:induction false} DropUnderscoresAppend(a: string, b: string)
    ensures DropUnderscores(a + b) == DropUnderscores(a) + DropUnderscores(b)
    decreases |a|
  {
    if a == [] {
      assert a + b == b;
    } else {
      assert (a + b)[1..] == a[1..] + b;
      DropUnderscoresAppend(a[1..], b);
    }
  }

  lemma {:induction false} MarkUpperDropped(t: string)
    ensures DropUnderscores(MarkUpper(t)) == DropUnderscores(t)
    decreases |t|
  {
    if t != [] {
      var head: string := if IsAsciiUpper(t[0]) then ['_', t[0]] else [t[0]];
      DropUnderscoresAppend(head, MarkUpper(t[1..]));
      assert DropUnderscores(head) == DropUnderscores([t[0]]);
      MarkUpperDropped(t[1..]);
    }
  }

  lemma {:induction false} LowerDropped(s: string)
    ensures DropUnderscores(Lower(s)) == Lower(DropUnderscores(s))
    decreases |s|
  {
    if s != [] {
      assert Lower(s) == [LowerChar(s[0])] + Lower(s[1..]);
      DropUnderscoresAppend([LowerChar(s[0])], Lower(s[1..]));
      LowerDropped(s[1..]);
      if s[0] != '_' {
        assert Lower(DropUnderscores(s)) == [LowerChar(s[0])] + Lower(DropUnderscores(s[1..]));
      }
    }
  }

  /** Removing the underscores from the table name gives the lowered name without underscores. */
  lemma TableNameWithoutUnderscores(name: string)
    ensures DropUnderscores(TableName(name)) == Lower(DropUnderscores(name))
    ensures '_' !in name ==> DropUnderscores(TableName(name)) == Lower(name)
  {
    LowerDropped(InsertUnderscores(name));
    if '_' !in name {
      NoUnderscoreUnchanged(name);
    }
  }

  lemma {:induction false} NoUnderscoreUnchanged(s: string)
    requires '_' !in s
    ensures DropUnderscores(s) == s
    decreases |s|
  {
    if s != [] {
      assert s[0] in s;
      assert forall c :: c in s[1..] ==> c in s;
      NoUnderscoreUnchanged(s[1..]);
    }
  }

  /** A CamelCase model name becomes snake_case. */
  lemma TableNameCamelCase()
    ensures TableName("UserRole") == "user_role"
  {
    InsertUnderscoresUserRole();
    LowerUserRole();
  }

  lemma InsertUnderscoresUserRole()
    ensures InsertUnderscores("UserRole") == "User_Role"
  {
    InsertUnderscoresHead("UserRole");
    assert "UserRole"[1..] == "serRole";
    MarkUpperSerRole();
  }

  /** Past the first character, the substitution is `MarkUpper`. */
  lemma InsertUnderscoresHead(name: string)
    requires name != []
    ensures InsertUnderscores(name) == [name[0]] + MarkUpper(name[1..])
  {
  }

  lemma MarkUpperSerRole()
    ensures MarkUpper("serRole") == "ser_Role"
  {
    MarkUpperRole();
  }

  lemma LowerUserRole()
    ensures Lower("User_Role") == "user_role"
  {
  }

  lemma MarkUpperRole()
    ensures MarkUpper("Role") == "_Role"
  {
    assert MarkUpper("ole") == "ole";
  }

  lemma MarkUpperServer()
    ensures MarkUpper("Server") == "_Server"
  {
    assert MarkUpper("erver") == "erver";
  }

  /** The substitution on a run of capitals puts an underscore before each. */
  lemma MarkUpperCapitalRun()
    ensures MarkUpper("TTPServer") == "_T_T_P_Server"
  {
    MarkUpperPServer();
    assert MarkUpper("TPServer") == "_T_P_Server";
  }

  lemma MarkUpperPServer()
    ensures MarkUpper("PServer") == "_P_Server"
  {
    MarkUpperServer();
  }

  lemma LowerCapitalRun()
    ensures Lower("H_T_T_P_Server") == "h_t_t_p_server"
  {
  }

  /** Consecutive capitals each get their own underscore. */
  lemma TableNameConsecutiveCapitals()
    ensures TableName("HTTPServer") == "h_t_t_p_server"
  {
    InsertUnderscoresCapitalRun();
    LowerCapitalRun();
  }

  lemma InsertUnderscoresCapitalRun()
    ensures InsertUnderscores("HTTPServer") == "H_T_T_P_Server"
  {
    InsertUnderscoresHead("HTTPServer");
    assert "HTTPServer"[1..] == "TTPServer";
    MarkUpperCapitalRun();
  }
}
