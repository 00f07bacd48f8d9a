/**
 * `validate_target`: the character whitelist a subscription target must
 * pass, with the literal `$TOPIC` placeholder let through unchecked.
 */
module TargetValidation {
  import Strings
  import PosixPath
  import Subscriber

  /** The whitelist `A-Za-z0-9/_-`. */
  predicate Allowed(c: char)
  {
    'A' <= c <= 'Z' || 'a' <= c <= 'z' || '0' <= c <= '9' || c == '/' || c == '_' || c == '-'
  }

  const InvalidTarget: string := "Invalid target"

  /**
   * The verdict and error message: `$TOPIC` is accepted outright; any
   * other target is rejected at its first character outside the whitelist.
   */
  function ValidateTarget(target: string): (r: (bool, string))
    ensures r.0 <==> target == Subscriber.TopicPlaceholder || forall i :: 0 <= i < |target| ==> Allowed(target[i])
    ensures r.0 ==> r.1 == ""
    ensures !r.0 ==> r.1 == InvalidTarget
  {
    if target == Subscriber.TopicPlaceholder then (true, "")
    else if Strings.FindFirst(target, c => !Allowed(c)).Some? then (false, InvalidTarget)
    else (true, "")
  }

  /** The placeholder is accepted with an empty message. */
  lemma PlaceholderAccepted()
    ensures ValidateTarget("$TOPIC") == (true, "")
  {
  }

  /** The empty target (the download directory itself) is accepted. */
  lemma EmptyTargetAccepted()
    ensures ValidateTarget("") == (true, "")
  {
  }

  /** A target with a '$' and a non-ASCII character is rejected. */
  lemma MistakeRejected()
    ensures ValidateTarget("MI$TAK€") == (false, "Invalid target")
  {
    var t := "MI$TAK€";
    assert !Allowed(t[2]);
  }

  /**
   * Apart from the placeholder, an accepted target has no '.' and no '$',
   * so none of the directory names it parses into is "..": it cannot climb
   * out of the download directory.
   */
  lemma {:induction false} AcceptedTargetStaysInside(target: string)
    requires target != Subscriber.TopicPlaceholder && ValidateTarget(target).0
    ensures '.' !in target && '$' !in target
    ensures forall i :: 0 <= i < |PosixPath.Parse(target).parts| ==> PosixPath.Parse(target).parts[i] != ".."
  {
    assert '.' !in target by {
      forall i | 0 <= i < |target| ensures target[i] != '.' {
        assert Allowed(target[i]);
      }
    }
    assert '$' !in target by {
      forall i | 0 <= i < |target| ensures target[i] != '$' {
        assert Allowed(target[i]);
      }
    }
    PosixPath.ParseAvoids(target, '.');
    var parts := PosixPath.Parse(target).parts;
    forall i | 0 <= i < |parts| ensures parts[i] != ".." {
      assert '.' !in parts[i];
    }
  }
}
