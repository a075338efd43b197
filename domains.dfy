/** The fixed domain lists of the application (app.py:22-30 and app.py:103). */
module Domains {

  /** SUPPORTED_DOMAINS; TRUSTED_DOMAINS is the same names as a set. */
  const SUPPORTED_DOMAINS: seq<string> := [
    "allrecipes.com", "simplyrecipes.com", "foodnetwork.com",
    "bonappetit.com", "epicurious.com", "bettycrocker.com",
    "kingarthurbaking.com", "delish.com", "thepioneerwoman.com",
    "seriouseats.com", "marthastewart.com", "food.com", "101cookbooks.com",
    "recipetineats.com", "bbcgoodfood.com", "tasty.co", "myrecipes.com",
    "cookinglight.com", "yummly.com"
  ]

  /** The social and video sites `search_recipes` drops from the non-priority results. */
  const BLOCKED_DOMAINS: seq<string> := [
    "youtube.com", "facebook.com", "instagram.com", "pinterest.com", "tiktok.com"
  ]
}
