/** The two link tests of the scraper: whether a link leads to a vacancy
    page, and whether it is a vacancy link not yet recorded in this run. */
module Classifier {
  import opened Strings

  /** The path fragment every vacancy page's address holds. */
  const VacancyPath: string := "/vacancy/"

  /** The scheme prefix a link must start with to be recorded. */
  const SecureScheme: string := "https"

  /** `is_valid_url_vacancy`: the link holds `/vacancy/` somewhere. */
  function IsValidUrlVacancy(url: string): bool {
    Contains(url, VacancyPath)
  }

  /** A link is a vacancy link exactly when some position of it starts a
      copy of `/vacancy/`. */
  lemma VacancyLinkOccurs(url: string)
    ensures IsValidUrlVacancy(url) <==>
      exists i :: 0 <= i <= |url| - |VacancyPath| && StartsWith(url[i..], VacancyPath)
  {
    ContainsOccurs(url, VacancyPath);
  }

  /** The shape half of `is_valid_url_vacancy_for_update`: a vacancy link
      that starts with `https`. */
  predicate Recordable(url: string) {
    IsValidUrlVacancy(url) && StartsWith(url, SecureScheme)
  }

  /** `is_valid_url_vacancy_for_update`: the link is rejected when it lacks
      `/vacancy/`, when it does not start with `https`, or when it is already
      in the list; otherwise it is accepted. So an accepted link is a vacancy
      link, and a link already in the list is never accepted. */
  function IsValidUrlVacancyForUpdate(url: string, current: seq<string>): (r: bool)
    ensures r <==> Recordable(url) && url !in current
  {
    if !Contains(url, VacancyPath) || !StartsWith(url, SecureScheme) || url in current then false
    else true
  }

  /** The update check in plain terms: a link is accepted exactly when the
      slice of it at some position is `/vacancy/`, its first characters are
      `https`, and no entry of the list equals it. */
  lemma UpdateCheckMeaning(url: string, current: seq<string>)
    ensures IsValidUrlVacancyForUpdate(url, current) <==>
      && (exists i :: 0 <= i <= |url| - |VacancyPath| && url[i..][..|VacancyPath|] == VacancyPath)
      && |SecureScheme| <= |url| && url[..|SecureScheme|] == SecureScheme
      && (forall k :: 0 <= k < |current| ==> current[k] != url)
  {
    VacancyLinkOccurs(url);
  }
}
