/** `getUserFullName` and `getUserInitials`: a user's display name and
    avatar initials from the optional first and last name. */
module UserUtils {

  import opened Wrappers
  import opened Text

  const FallbackName := "User"
  const FallbackInitials := "U"

  /** "first last" when both are given, the one that is given otherwise,
      and "User" when neither is. */
  function FullName(firstName: Option<string>, lastName: Option<string>): (r: string)
    ensures Truthy(firstName) && Truthy(lastName) ==> r == firstName.value + " " + lastName.value
    ensures Truthy(firstName) && !Truthy(lastName) ==> r == firstName.value
    ensures !Truthy(firstName) && Truthy(lastName) ==> r == lastName.value
    ensures !Truthy(firstName) && !Truthy(lastName) ==> r == FallbackName
    ensures r != ""
  {
    if Truthy(firstName) && Truthy(lastName) then firstName.value + " " + lastName.value
    else if Truthy(firstName) then firstName.value
    else if Truthy(lastName) then lastName.value
    else FallbackName
  }

  /** The first character of each given name, first name first, pushed
      into a list, then joined and upper-cased; "U" when neither is given. */
  method GetUserInitials(firstName: Option<string>, lastName: Option<string>) returns (r: string)
    ensures !Truthy(firstName) && !Truthy(lastName) ==> r == FallbackInitials
    ensures Truthy(firstName) || Truthy(lastName) ==> 1 <= |r| <= 2
    ensures |r| == 2 <==> Truthy(firstName) && Truthy(lastName)
    ensures Truthy(firstName) ==> r[0] == ToUpper(firstName.value[0])
    ensures Truthy(lastName) ==> r[|r| - 1] == ToUpper(lastName.value[0])
  {
    var parts: seq<string> := [];
    if Truthy(firstName) {
      parts := parts + [[firstName.value[0]]];
    }
    if Truthy(lastName) {
      parts := parts + [[lastName.value[0]]];
    }
    if |parts| == 0 {
      return FallbackInitials;
    }
    if |parts| == 2 {
      assert Concat(parts[1..][1..]) == "";
    } else {
      assert Concat(parts[1..]) == "";
    }
    r := Upper(Concat(parts));
  }
}
