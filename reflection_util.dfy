/**
 * The accessor-name rules of ReflectionUtil: the setter, getter and boolean
 * getter names made from a field name, and the field name that `findFields`
 * derives from a method name. Letter case is that of ASCII letters.
 */
module AccessorNames {
  import opened Wrappers

  datatype NameError = FieldNameTooShort   // IllegalArgumentException on an empty field name

  predicate IsUpper(c: char)
  {
    'A' <= c <= 'Z'
  }

  predicate IsLower(c: char)
  {
    'a' <= c <= 'z'
  }

  /** `Character.toUpperCase` on ASCII: lower-case letters move up, everything else stays. */
  function ToUpper(c: char): (u: char)
    ensures IsLower(c) ==> IsUpper(u)
    ensures !IsLower(c) ==> u == c
  {
    if IsLower(c) then (c as int - 32) as char else c
  }

  /** `Character.toLowerCase` on ASCII: upper-case letters move down, everything else stays. */
  function ToLower(c: char): (l: char)
    ensures IsUpper(c) ==> IsLower(l)
    ensures !IsUpper(c) ==> l == c
  {
    if IsUpper(c) then (c as int + 32) as char else c
  }

  /** The two case maps undo each other on letters. */
  lemma CaseRoundTrip(c: char)
    ensures IsLower(c) ==> ToLower(ToUpper(c)) == c
    ensures IsUpper(c) ==> ToUpper(ToLower(c)) == c
  {
  }

  /** `prefix + toUpperCase(name[0]) + name.substring(1)`, refusing an empty name. */
  function AccessorName(prefix: string, name: string): (r: Result<string, NameError>)
    ensures r.Failure? <==> name == []
    ensures r.Success? ==>
              && |r.value| == |prefix| + |name|
              && r.value[..|prefix|] == prefix
              && r.value[|prefix|] == ToUpper(name[0])
              && r.value[|prefix| + 1..] == name[1..]
  {
    if |name| < 1 then Failure(FieldNameTooShort)
    else Success(prefix + [ToUpper(name[0])] + name[1..])
  }

  /** `getSetterName`. */
  function SetterName(name: string): Result<string, NameError>
  {
    AccessorName("set", name)
  }

  /** `getGetterName`. */
  function GetterName(name: string): Result<string, NameError>
  {
    AccessorName("get", name)
  }

  /** `getBooleanGetterName`. */
  function BooleanGetterName(name: string): Result<string, NameError>
  {
    AccessorName("is", name)
  }

  /**
   * The field name `findFields` reads off a method name: after `get` or `set`
   * with an upper-case fourth character, or after `is` with an upper-case
   * third character, that character lowered and the rest of the name. The
   * two rules never both apply, so a method names at most one field.
   */
  function DerivedFieldName(method_: string): (r: Option<string>)
    ensures r.Some? ==> |r.value| >= 1 && IsLower(r.value[0])
  {
    if |method_| > 3 && (method_[..3] == "get" || method_[..3] == "set") && IsUpper(method_[3]) then
      Some([ToLower(method_[3])] + method_[4..])
    else if |method_| > 2 && method_[..2] == "is" && IsUpper(method_[2]) then
      Some([ToLower(method_[2])] + method_[3..])
    else None
  }

  /** The field name derived from an accessor name made from a field name, by its first character. */
  function Recovered(name: string): Option<string>
    requires name != []
  {
    if IsLower(name[0]) then Some(name)
    else if IsUpper(name[0]) then Some([ToLower(name[0])] + name[1..])
    else None
  }

  /**
   * Deriving a field name from an accessor name made with the given prefix
   * gives the field back when it starts with a lower-case letter, its
   * lower-cased form when it starts with an upper-case one, and nothing
   * otherwise.
   */
  lemma DerivedFromAccessor(prefix: string, name: string)
    requires prefix == "get" || prefix == "set" || prefix == "is"
    requires name != []
    ensures DerivedFieldName(AccessorName(prefix, name).value) == Recovered(name)
  {
    var m := AccessorName(prefix, name).value;
    var k := |prefix|;
    assert m[..k] == prefix && m[k] == ToUpper(name[0]) && m[k + 1..] == name[1..];
    if k == 2 {
      assert m[..3] != "get" && m[..3] != "set" by {
        assert m[0] == 'i';
      }
    } else {
      assert m[..2] != "is" by {
        assert m[0] != 'i';
      }
    }
    CaseRoundTrip(name[0]);
    assert [name[0]] + name[1..] == name;
  }

  /** `findFields` recovers a lower-case field from its setter, getter and boolean getter names. */
  lemma FieldFromAccessors(name: string)
    requires name != [] && IsLower(name[0])
    ensures DerivedFieldName(SetterName(name).value) == Some(name)
    ensures DerivedFieldName(GetterName(name).value) == Some(name)
    ensures DerivedFieldName(BooleanGetterName(name).value) == Some(name)
  {
    DerivedFromAccessor("set", name);
    DerivedFromAccessor("get", name);
    DerivedFromAccessor("is", name);
  }

  /**
   * The other way round: a method name that yields a field name is the
   * setter, getter or boolean getter name of that field, whichever its
   * prefix says.
   */
  lemma AccessorFromDerived(method_: string)
    requires DerivedFieldName(method_).Some?
    ensures var f := DerivedFieldName(method_).value;
      || (method_[..3] == "get" && GetterName(f) == Success(method_))
      || (method_[..3] == "set" && SetterName(f) == Success(method_))
      || (method_[..2] == "is" && BooleanGetterName(f) == Success(method_))
  {
    var f := DerivedFieldName(method_).value;
    if |method_| > 3 && (method_[..3] == "get" || method_[..3] == "set") && IsUpper(method_[3]) {
      CaseRoundTrip(method_[3]);
      assert f[1..] == method_[4..];
      assert method_ == method_[..3] + [method_[3]] + method_[4..];
    } else {
      CaseRoundTrip(method_[2]);
      assert f[1..] == method_[3..];
      assert method_ == method_[..2] + [method_[2]] + method_[3..];
    }
  }
}
