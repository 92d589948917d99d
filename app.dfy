/** The request handlers of the service, over a store of the three tables.
    A handler returns the status code and the body it would send. */
module App {
  import opened Wrappers
  import opened Json
  import opened Table
  import opened Models

  datatype Body = Text(text: string) | JsonBody(json: Json)

  datatype Response = Response(status: int, body: Body)

  /** The body of every 404: one member, the singular "error". */
  const NotFoundBody: Json := JObj([("error", JStr("Restaurant not found"))])

  /** A 400 whose body has one member, the plural "errors", listing `messages`. */
  function Errors(messages: seq<string>): (r: Response)
    ensures r.status == 400 && r.body.JsonBody?
    ensures Keys(r.body.json) == ["errors"]
    ensures Get(r.body.json, "errors").Some? && Get(r.body.json, "errors").value.JArr?
    ensures var items := Get(r.body.json, "errors").value.items;
      |items| == |messages| && forall i :: 0 <= i < |items| ==> items[i] == JStr(messages[i])
  {
    Response(400, JsonBody(JObj([("errors", JArr(seq(|messages|, i requires 0 <= i < |messages| => JStr(messages[i]))))])))
  }

  /** The text of a KeyError for a request key that is absent: Python's str()
      of a KeyError quotes the key. */
  function MissingKey(key: string): (message: string)
    ensures |message| == |key| + 15
    ensures message[..13] == "Missing key: " && message[13..] == "'" + key + "'"
  {
    "Missing key: '" + key + "'"
  }

  const ValidationErrors: Response := Errors(["validation errors"])

  const UnexpectedError: Response := Errors(["An unexpected error occurred"])

  /** An entry of GET /restaurants: the three columns, no associations. */
  function RestaurantRow(r: Restaurant): (j: Json)
    ensures Keys(j) == ["id", "name", "address"]
    ensures IdOf(j) == Some(r.id)
    ensures Get(j, "name") == Some(Nullable(r.name))
    ensures Get(j, "address") == Some(Nullable(r.address))
    ensures IsFlatObject(j)
  {
    var members := [("id", JInt(r.id)), ("name", Nullable(r.name)), ("address", Nullable(r.address))];
    LookupDistinct(members);
    assert members[0].0 == "id" && members[1].0 == "name" && members[2].0 == "address";
    JObj(members)
  }

  /** An entry of GET /pizzas: the three columns, no associations. */
  function PizzaRow(p: Pizza): (j: Json)
    ensures Keys(j) == ["id", "name", "ingredients"]
    ensures IdOf(j) == Some(p.id)
    ensures Get(j, "name") == Some(JStr(p.name))
    ensures Get(j, "ingredients") == Some(JStr(p.ingredients))
    ensures IsFlatObject(j)
  {
    var members := [("id", JInt(p.id)), ("name", JStr(p.name)), ("ingredients", JStr(p.ingredients))];
    LookupDistinct(members);
    assert members[0].0 == "id" && members[1].0 == "name" && members[2].0 == "ingredients";
    JObj(members)
  }

  /** The minimal view of a referenced row nested in a 201: id and name only. */
  function NameRef(id: int, name: Json): (j: Json)
    ensures Keys(j) == ["id", "name"]
    ensures Get(j, "id") == Some(JInt(id)) && Get(j, "name") == Some(name)
  {
    var members := [("id", JInt(id)), ("name", name)];
    LookupDistinct(members);
    assert members[0].0 == "id" && members[1].0 == "name";
    JObj(members)
  }

  /** The body of a 201 from POST /restaurant_pizzas: the new row's four
      columns, as to_dict gives them, then the pizza and the restaurant it
      references, each as a minimal view. */
  function CreatedBody(row: RestaurantPizza, pizza: Pizza, restaurant: Restaurant): (j: Json)
    ensures Keys(j) == ["id", "price", "pizza_id", "restaurant_id", "pizza", "restaurant"]
    ensures j.JObj? && j.members[..4] == ToDict(row).members
    ensures Get(j, "id") == Some(JInt(row.id)) && Get(j, "price") == Some(JInt(row.price))
    ensures Get(j, "pizza_id") == Some(JInt(row.pizzaId))
    ensures Get(j, "restaurant_id") == Some(JInt(row.restaurantId))
    ensures Get(j, "pizza") == Some(NameRef(pizza.id, JStr(pizza.name)))
    ensures Get(j, "restaurant") == Some(NameRef(restaurant.id, Nullable(restaurant.name)))
  {
    var members := ToDict(row).members
      + [("pizza", NameRef(pizza.id, JStr(pizza.name))),
         ("restaurant", NameRef(restaurant.id, Nullable(restaurant.name)))];
    assert members[0].0 == "id" && members[1].0 == "price";
    assert members[2].0 == "pizza_id" && members[3].0 == "restaurant_id";
    assert members[4].0 == "pizza" && members[5].0 == "restaurant";
    LookupDistinct(members);
    JObj(members)
  }

  /** The keys POST /restaurant_pizzas reads from its body, all present. */
  predicate HasRequestKeys(body: map<string, int>)
  {
    "pizza_id" in body && "restaurant_id" in body && "price" in body
  }

  /** The SQLite database behind the handlers: one map per table, from
      primary key to row. `enforcesForeignKeys` says whether the connection
      has switched foreign-key checks on with a pragma; the service as written
      never does, so for it the flag is false. */
  class Store {
    var restaurants: map<int, Restaurant>
    var pizzas: map<int, Pizza>
    var restaurantPizzas: map<int, RestaurantPizza>
    const enforcesForeignKeys: bool

    ghost predicate Valid()
      reads this
    {
      Consistent(restaurants, pizzas, restaurantPizzas, enforcesForeignKeys)
    }

    /** A store holding the given tables. */
    constructor(restaurants: map<int, Restaurant>, pizzas: map<int, Pizza>,
                restaurantPizzas: map<int, RestaurantPizza>, enforcesForeignKeys: bool)
      requires Consistent(restaurants, pizzas, restaurantPizzas, enforcesForeignKeys)
      ensures Valid()
      ensures this.restaurants == restaurants && this.pizzas == pizzas
      ensures this.restaurantPizzas == restaurantPizzas
      ensures this.enforcesForeignKeys == enforcesForeignKeys
    {
      this.restaurants := restaurants;
      this.pizzas := pizzas;
      this.restaurantPizzas := restaurantPizzas;
      this.enforcesForeignKeys := enforcesForeignKeys;
    }

    /** GET /restaurants: every stored restaurant once, in scan order, as
        id, name and address. */
    function GetRestaurants(): (r: Response)
      reads this
      requires Valid()
      ensures r.status == 200 && r.body.JsonBody? && r.body.json.JArr?
      ensures ListsTable(r.body.json.items, restaurants, RestaurantRow)
      ensures forall i :: 0 <= i < |r.body.json.items| ==>
        Keys(r.body.json.items[i]) == ["id", "name", "address"]
    {
      var items := Listing(restaurants, RestaurantRow);
      Response(200, JsonBody(JArr(items)))
    }

    /** GET /restaurants/<id>: the restaurant with its associations, or a 404. */
    function GetRestaurant(id: int): (r: Response)
      reads this
      requires Valid()
      ensures id in restaurants ==>
        r.status == 200 && r.body == JsonBody(RestaurantDetail(restaurants[id], restaurantPizzas))
      ensures id !in restaurants ==> r.status == 404 && r.body == JsonBody(NotFoundBody)
    {
      if id in restaurants then
        Response(200, JsonBody(RestaurantDetail(restaurants[id], restaurantPizzas)))
      else
        Response(404, JsonBody(NotFoundBody))
    }

    /** GET /pizzas: every stored pizza once, in scan order, as id, name and
        ingredients. */
    function GetPizzas(): (r: Response)
      reads this
      requires Valid()
      ensures r.status == 200 && r.body.JsonBody? && r.body.json.JArr?
      ensures ListsTable(r.body.json.items, pizzas, PizzaRow)
      ensures forall i :: 0 <= i < |r.body.json.items| ==>
        Keys(r.body.json.items[i]) == ["id", "name", "ingredients"]
    {
      var items := Listing(pizzas, PizzaRow);
      Response(200, JsonBody(JArr(items)))
    }

    /** DELETE /restaurants/<id>: removes the restaurant and its join rows and
        answers 204 with an empty body, or answers 404 and changes nothing. */
    method DeleteRestaurant(id: int) returns (r: Response)
      requires Valid()
      modifies this
      ensures Valid()
      ensures pizzas == old(pizzas)
      ensures id in old(restaurants) ==>
        && r == Response(204, Text(""))
        && restaurants == old(restaurants) - {id}
        && restaurantPizzas == WithoutRestaurant(old(restaurantPizzas), id)
        && forall k :: k in restaurantPizzas ==> restaurantPizzas[k].restaurantId != id
      ensures id !in old(restaurants) ==>
        && r == Response(404, JsonBody(NotFoundBody))
        && restaurants == old(restaurants)
        && restaurantPizzas == old(restaurantPizzas)
      ensures GetRestaurant(id) == Response(404, JsonBody(NotFoundBody))
      ensures forall other :: other != id ==> GetRestaurant(other) == old(GetRestaurant(other))
    {
      if id in restaurants {
        forall other | other != id && other in restaurants {
          CascadeKeepsOtherDetails(restaurants[other], restaurantPizzas, id);
        }
        DeleteKeepsConsistent(restaurants, pizzas, restaurantPizzas, enforcesForeignKeys, id);
        restaurantPizzas := WithoutRestaurant(restaurantPizzas, id);
        restaurants := restaurants - {id};
        r := Response(204, Text(""));
      } else {
        r := Response(404, JsonBody(NotFoundBody));
      }
    }

    /** POST /restaurant_pizzas. The keys are read in the order pizza_id,
        restaurant_id, price, so the first absent one is reported; a price
        outside [1, 30] is refused before anything is written; otherwise the
        row is committed under a fresh id and the referenced rows are looked
        up to build the reply. A failed commit or an unresolved reference
        ends in the one generic 400. */
    method CreateRestaurantPizza(body: map<string, int>) returns (r: Response)
      requires Valid()
      modifies this
      ensures Valid()
      ensures restaurants == old(restaurants) && pizzas == old(pizzas)
      ensures "pizza_id" !in body ==>
        r == Errors([MissingKey("pizza_id")]) && restaurantPizzas == old(restaurantPizzas)
      ensures "pizza_id" in body && "restaurant_id" !in body ==>
        r == Errors([MissingKey("restaurant_id")]) && restaurantPizzas == old(restaurantPizzas)
      ensures "pizza_id" in body && "restaurant_id" in body && "price" !in body ==>
        r == Errors([MissingKey("price")]) && restaurantPizzas == old(restaurantPizzas)
      ensures HasRequestKeys(body) && !(MinPrice <= body["price"] <= MaxPrice) ==>
        r == ValidationErrors && restaurantPizzas == old(restaurantPizzas)
      ensures HasRequestKeys(body) && MinPrice <= body["price"] <= MaxPrice ==>
        var row := RestaurantPizza(NextId(old(restaurantPizzas).Keys), body["price"],
                                   body["pizza_id"], body["restaurant_id"]);
        && row.id !in old(restaurantPizzas)
        && if row.pizzaId in pizzas && row.restaurantId in restaurants then
             && restaurantPizzas == old(restaurantPizzas)[row.id := row]
             && r == Response(201, JsonBody(CreatedBody(row, pizzas[row.pizzaId], restaurants[row.restaurantId])))
           else
             && r == UnexpectedError
             && restaurantPizzas == if enforcesForeignKeys then old(restaurantPizzas)
                                    else old(restaurantPizzas)[row.id := row]
    {
      if "pizza_id" !in body {
        return Errors([MissingKey("pizza_id")]);
      }
      var pizzaId := body["pizza_id"];
      if "restaurant_id" !in body {
        return Errors([MissingKey("restaurant_id")]);
      }
      var restaurantId := body["restaurant_id"];
      if "price" !in body {
        return Errors([MissingKey("price")]);
      }
      var price := body["price"];

      if price < 1 || price > 30 {
        return ValidationErrors;
      }

      var id := NextId(restaurantPizzas.Keys);
      var built := NewRestaurantPizza(id, pizzaId, restaurantId, price);
      assert built.Ok?;
      var row := built.value;

      // The commit: with foreign-key checks switched on, SQLite refuses a row
      // whose references do not resolve, and nothing is written.
      var resolves := pizzaId in pizzas && restaurantId in restaurants;
      if enforcesForeignKeys && !resolves {
        return UnexpectedError;
      }
      InsertKeepsConsistent(restaurants, pizzas, restaurantPizzas, enforcesForeignKeys, row);
      restaurantPizzas := restaurantPizzas[id := row];

      // Reading the referenced rows back; a missing one fails on attribute access.
      if pizzaId !in pizzas || restaurantId !in restaurants {
        return UnexpectedError;
      }
      var pizza := pizzas[pizzaId];
      var restaurant := restaurants[restaurantId];
      r := Response(201, JsonBody(CreatedBody(row, pizza, restaurant)));
    }
  }
}
