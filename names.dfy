/**
 * The safe name: the user's project or app name with every "-" replaced by "_",
 * so that it can stand in a Python import path. It is what the generators are
 * given and what both settings transforms receive.
 */
module Names {

  /** `name.replace("-", "_")` */
  function SafeName(name: string): (safe: string)
    ensures |safe| == |name|
    ensures forall i :: 0 <= i < |name| ==> safe[i] == (if name[i] == '-' then '_' else name[i])
    ensures '-' !in safe
  {
    if name == [] then []
    else [if name[0] == '-' then '_' else name[0]] + SafeName(name[1..])
  }

  /** A name is its own safe name exactly when it has no "-"; in particular making a
      safe name safe again changes nothing. */
  lemma SafeNameFixedIff(name: string)
    ensures SafeName(name) == name <==> '-' !in name
    ensures SafeName(SafeName(name)) == SafeName(name)
  {
    if '-' in name {
      var i :| 0 <= i < |name| && name[i] == '-';
      assert SafeName(name)[i] == '_';
    } else {
      assert forall i :: 0 <= i < |name| ==> SafeName(name)[i] == name[i];
    }
    var safe := SafeName(name);
    assert forall i :: 0 <= i < |safe| ==> SafeName(safe)[i] == safe[i];
  }

  /** The replacement touches no character other than "-", so a name without quotes,
      newlines or backslashes gives a safe name without them too. */
  lemma SafeNameKeepsOtherCharacters(name: string, c: char)
    requires c != '-' && c != '_'
    ensures c in SafeName(name) <==> c in name
  {
    var safe := SafeName(name);
    if c in safe {
      var i :| 0 <= i < |safe| && safe[i] == c;
      assert name[i] == c;
    }
    if c in name {
      var i :| 0 <= i < |name| && name[i] == c;
      assert safe[i] == c;
    }
  }

  /** The project name of the template example. */
  lemma SafeNameOfExample()
    ensures SafeName("My-Blog") == "My_Blog"
  {
    var safe := SafeName("My-Blog");
    assert forall i :: 0 <= i < 7 ==> safe[i] == "My_Blog"[i];
  }
}
